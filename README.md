# Attendance ledger of the time-tracker screen

A Dafny model of the local attendance ledger behind the employee selection
screen of a small React Native time-tracking app. The screen keeps two
collections in the device's key-value store, each written whole:

- the **employee directory** under the key `employees`: an ordered list of
  `{id, name}`; entries are added from a text field and deleted by id;
- the **attendance ledger** under the key `records`: an ordered list of
  `{id, name, clockIn, clockOut}`; clock-in appends an open record holding a
  copy of the selected employee's name, clock-out closes every open record
  with that name.

Timestamps are shifted by a fixed seven hours (Thailand, UTC+7) before they
are stored.

Layout:

- `wrappers.dfy` (`Wrappers`): the `Option` type.
- `clock.dfy` (`ThaiClock`): the seven-hour shift of `getThaiTime`.
- `directory.dfy` (`Directory`): the employee entry and the pure list
  transforms the handlers use on it (`filter` by id, `find` by id).
- `ledger.dfy` (`Ledger`): the time record, the clock-out `map`, and lemmas
  about sequences of clock-ins and clock-outs.
- `screen.dfy` (`EmployeeSelection`): class `Screen` with the component state
  (`employees`, the picker's `selected` id, the text field's `newName`) and
  the store as fields, and one method per event handler.
- `scenario.dfy` (`Scenario`): two client methods that drive a fresh screen
  through a worked example and through a stale selection.

Modelling decisions:

- The store is a field `store: Store` that holds one `Option` per key. `None`
  is a key that was never written, which every read treats as an empty list.
- JSON encoding is not modelled. Values are stored and read back as they are.
- Each storage call's outcome is a `bool` parameter (`readOk`, `writeOk`).
  When a call fails, nothing is written.
- `Date.now()` is passed in: as the `instant` of a handler, and as the fresh
  `id` of an employee or record.
- Timestamps are integer milliseconds, not ISO-8601 strings.
- Each handler returns a `Notice`. It stands for the alert the handler shows,
  for the error it catches and logs (`StorageFailed`), or for an exception
  that escapes it (`Uncaught`).

Behaviour of the code worth noting:

- Adding rejects only the empty name. A name of blanks is accepted.
- Deleting writes the filtered list back even when no entry has the id.
- Clock-out returns no "updated anything" flag. When it succeeds it always
  shows the same alert.
- When the selected id names no employee, clock-out matches no record. It
  still writes the records back, so a missing `records` key becomes `[]`.
- Clock-in does not check for a missing name. It looks up the selected id
  before its try block. If the id is stale (the employee was deleted while
  selected), reading `employee.name` throws, and nothing is written.
- If the directory read fails when the screen mounts, the roster starts
  empty. The next successful add then overwrites the stored directory with
  a list holding only the new entry.
- Clock-out reads `records` before its try block, so a failed read escapes
  the handler.
- Clock-in does not check for an already open shift. One employee can
  therefore have several open records, and the invariant "at most one open
  record per name" does not hold (`Ledger.RepeatedClockIn`).

## Model

| member | source | states |
|---|---|---|
| `ThaiClock.ThaiTime` | screens/EmployeeSelectionScreen.js:7-12 | the stored timestamp is always the instant plus 25,200,000 ms (seven hours); it is undefined (the string conversion throws) exactly when the shifted value leaves the `Date` range |
| `Directory.WithoutId` | screens/EmployeeSelectionScreen.js:61 | the result never grows, contains no entry with the id, and keeps every entry with another id |
| `Directory.WithoutIdConcat` | screens/EmployeeSelectionScreen.js:61 | the filter distributes over concatenation and keeps or drops single entries by id, so the kept entries stay in their original order |
| `Directory.WithoutIdAbsent` | screens/EmployeeSelectionScreen.js:61 | deleting leaves the list unchanged if and only if no entry has that id |
| `Directory.WithoutIdIdempotent` | screens/EmployeeSelectionScreen.js:61 | deleting the same id twice gives the same list as deleting it once |
| `Directory.WithoutIdCommutes` | screens/EmployeeSelectionScreen.js:61 | the order in which two ids are deleted does not matter |
| `Directory.Find` | screens/EmployeeSelectionScreen.js:78 | the lookup returns an entry of the list with the id, or nothing exactly when no entry has that id |
| `Directory.FindFirst` | screens/EmployeeSelectionScreen.js:78 | when several entries share the id, the lookup returns the first |
| `Ledger.CloseOpen` | screens/EmployeeSelectionScreen.js:104-108 | keeps the number and order of records; every open record of the name is closed with the given time; every other record, including every closed one, is unchanged; no record of the name is left open |
| `Ledger.CloseOpenUnmatched` | screens/EmployeeSelectionScreen.js:104-108 | a clock-out leaves the ledger unchanged if and only if the name has no open record |
| `Ledger.CloseOpenIdempotent` | screens/EmployeeSelectionScreen.js:104-108 | a second clock-out straight after the first changes nothing, whatever its time |
| `Ledger.CloseOpenCount` | screens/EmployeeSelectionScreen.js:104-108 | after a clock-out the name has no open record, and every other name keeps the same number of open records |
| `Ledger.OpenCountAppend` | screens/EmployeeSelectionScreen.js:89 | appending a record adds one open record to its name when the record is open, and none otherwise |
| `Ledger.RepeatedClockIn` | screens/EmployeeSelectionScreen.js:79-89 | two clock-ins of the same name add two open records: nothing prevents several open shifts |
| `Ledger.ExtendsByTransform` | screens/EmployeeSelectionScreen.js:89 | appending a record and closing open records each extend the ledger: no record is removed or reordered, none changes its id, name or clock-in, and no closed record is overwritten |
| `Ledger.Apply` | screens/EmployeeSelectionScreen.js:79-89 | one clock-in or clock-out, applied to the ledger, extends it |
| `Ledger.ReplayExtends` | screens/EmployeeSelectionScreen.js:89 | any sequence of clock-ins and clock-outs extends the ledger, so history is only appended to and closed |
| `Ledger.NoOpenKept` | screens/EmployeeSelectionScreen.js:89 | events that do not clock a name in never reopen a record of that name |
| `Ledger.PairingInvariant` | screens/EmployeeSelectionScreen.js:104-108 | after a clock-out of a name, no record of that name is open until that name clocks in again, whatever other employees do meanwhile |
| `EmployeeSelection.OrEmpty` | screens/EmployeeSelectionScreen.js:88 | a key that was never written reads as the empty list; a written key reads as the list stored under it |
| `EmployeeSelection.Screen.constructor` | screens/EmployeeSelectionScreen.js:15-31 | the screen starts with nothing selected and an empty text field; the roster is the stored directory, an empty list when the key is missing, or an empty list when the read fails |
| `EmployeeSelection.Screen.Select` | screens/EmployeeSelectionScreen.js:128 | picking an employee sets the selected id and changes nothing else |
| `EmployeeSelection.Screen.EditName` | screens/EmployeeSelectionScreen.js:140 | typing sets the text field and changes nothing else |
| `EmployeeSelection.Screen.AddEmployee` | screens/EmployeeSelectionScreen.js:33-47 | an empty name is refused and nothing changes; a failed write changes nothing; a successful one appends exactly one entry with the fresh id and the typed name, stores the same list, and clears the field; the roster stays in step with storage |
| `EmployeeSelection.Screen.DeleteEmployee` | screens/EmployeeSelectionScreen.js:61-68 | a successful write makes the roster and the stored directory the filtered list; a failed write changes nothing; the roster stays in step with storage |
| `EmployeeSelection.Screen.ClockIn` | screens/EmployeeSelectionScreen.js:75-97 | with no selection, nothing changes; a time out of range or an unknown selected id escapes and writes nothing; a failed read or write changes nothing; otherwise the stored ledger (empty when the key is missing) gains exactly one open record at the end, holding the employee's name and the shifted time; the ledger is only extended; the directory and component state are untouched |
| `EmployeeSelection.Screen.ClockOut` | screens/EmployeeSelectionScreen.js:99-119 | with no selection, nothing changes; a time out of range or a failed read escapes and writes nothing; a failed write changes nothing; otherwise the stored ledger (empty when the key is missing) has every open record of the selected employee's name closed at the shifted time, or is written back unchanged when the id names no employee; afterwards no record of that name is open; the ledger is only extended |
| `Scenario.SomchaiScenario` | screens/EmployeeSelectionScreen.js:33-119 | from empty storage, adding "Somchai", clocking in, clocking out and deleting the employee leaves an empty directory and exactly one closed Somchai record with both shifted times |
| `Scenario.DeletedSelection` | screens/EmployeeSelectionScreen.js:61-81 | deleting the selected employee and then clocking in escapes the handler and writes no record |

## Left out

- Rendering, styles, the picker and text-field widgets, alert dialogs and the delete confirmation: user interface only. The delete handler is modelled from its confirmed branch; a cancelled dialog changes nothing.
- `toISOString` formatting and the display formatting of the result screen: timestamps are integer milliseconds.
- JSON encoding and decoding: the store holds decoded lists. A malformed value under a key is not modelled, because the screen only ever writes well-formed JSON.
- `Date.now()` as a source of ids and instants: both are parameters. The model does not assume that ids are unique: the lookup returns the first match (`Directory.FindFirst`) and deletion removes every match.
- Asynchrony: each handler runs to completion before the next starts. Overlapping handlers, lost updates between them and a delete callback that sees an outdated roster are not modelled.
- Exceptions that escape a handler are reported as `Uncaught`; what the runtime does with the unhandled promise rejection is not modelled.
- The result screen, the network API client and the navigation wiring are not part of this model: they only display records, talk to a remote server that no screen uses, or connect screens.
