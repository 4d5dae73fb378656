/** The state and event handlers of the employee selection screen: the
    component state (`employees`, `selectedEmployee`, `newEmployee`) and the
    device key-value store the handlers read and write whole. */
module EmployeeSelection {
  import opened Wrappers
  import opened ThaiClock
  import opened Directory
  import opened Ledger

  /** The two storage keys, each holding a whole collection; `None` is a
      key that was never written. */
  datatype Store = Store(employees: Option<seq<Employee>>, records: Option<seq<Record>>)

  /** `json ? JSON.parse(json) : []`: a missing key reads as empty. */
  function OrEmpty<T>(v: Option<seq<T>>): (r: seq<T>)
    ensures v.None? ==> r == []
    ensures v.Some? ==> r == v.value
  {
    v.GetOr([])
  }

  /** What a handler ends with: the alert it shows, `StorageFailed` for an
      error caught and logged, `Uncaught` for an exception that escapes the
      handler. */
  datatype Notice =
    | EmployeeAdded | NameRequired | EmployeeDeleted
    | ClockedIn | ClockedOut | SelectionRequired
    | StorageFailed | Uncaught

  class Screen {
    var employees: seq<Employee>
    /** The picker's value: an employee id, or "" when none is chosen. */
    var selected: string
    /** The text typed into the new-employee field. */
    var newName: string
    var store: Store

    /** The roster shown on screen is the one in storage. */
    ghost predicate Synced()
      reads this
    {
      employees == OrEmpty(store.employees)
    }

    /** Mounting the screen: empty component state, then the directory is
        loaded from storage; a failed read is logged and leaves it empty. */
    constructor (stored: Store, readOk: bool)
      ensures store == stored && selected == "" && newName == ""
      ensures readOk ==> Synced()
      ensures !readOk ==> employees == []
    {
      store := stored;
      selected := "";
      newName := "";
      employees := if readOk then OrEmpty(stored.employees) else [];
    }

    /** The picker's `onValueChange`. */
    method Select(id: string)
      modifies this
      ensures selected == id
      ensures employees == old(employees) && newName == old(newName) && store == old(store)
    {
      selected := id;
    }

    /** The text field's `onChangeText`. */
    method EditName(text: string)
      modifies this
      ensures newName == text
      ensures employees == old(employees) && selected == old(selected) && store == old(store)
    {
      newName := text;
    }

    /** `handleAddEmployee`; `id` stands for `Date.now().toString()` and
        `writeOk` for the outcome of `setItem('employees', …)`. */
    method AddEmployee(id: string, writeOk: bool) returns (n: Notice)
      modifies this
      ensures old(newName) == "" ==> n == NameRequired
      ensures old(newName) != "" ==> n == if writeOk then EmployeeAdded else StorageFailed
      ensures n == EmployeeAdded ==>
                && employees == old(employees) + [Employee(id, old(newName))]
                && store == old(store).(employees := Some(employees))
                && newName == ""
      ensures n != EmployeeAdded ==>
                employees == old(employees) && store == old(store) && newName == old(newName)
      ensures selected == old(selected)
      ensures old(Synced()) ==> Synced()
    {
      if newName == "" {
        n := NameRequired;
        return;
      }
      var updated := employees + [Employee(id, newName)];
      if !writeOk {
        n := StorageFailed;
        return;
      }
      store := store.(employees := Some(updated));
      employees := updated;
      newName := "";
      n := EmployeeAdded;
    }

    /** The confirmed branch of `handleDeleteEmployee`. The filtered list is
        written whether or not `id` was present. */
    method DeleteEmployee(id: string, writeOk: bool) returns (n: Notice)
      modifies this
      ensures n == if writeOk then EmployeeDeleted else StorageFailed
      ensures writeOk ==>
                && employees == WithoutId(old(employees), id)
                && store == old(store).(employees := Some(employees))
      ensures !writeOk ==> employees == old(employees) && store == old(store)
      ensures selected == old(selected) && newName == old(newName)
      ensures old(Synced()) ==> Synced()
    {
      var updated := WithoutId(employees, id);
      if !writeOk {
        n := StorageFailed;
        return;
      }
      store := store.(employees := Some(updated));
      employees := updated;
      n := EmployeeDeleted;
    }

    /** `handleClockIn`. `instant` is `Date.now()` and `recordId` the fresh
        id; `readOk` and `writeOk` are the outcomes of `getItem('records')`
        and `setItem('records', …)`. The shifted time and the selected
        employee's name are taken before the try block, so a failure there
        escapes the handler. */
    method ClockIn(instant: int, recordId: string, readOk: bool, writeOk: bool) returns (n: Notice)
      requires IsTimeValue(instant)
      modifies this
      ensures old(selected) == "" ==> n == SelectionRequired
      ensures old(selected) != "" ==>
                n == if ThaiTime(instant).None? || Find(old(employees), old(selected)).None? then Uncaught
                     else if readOk && writeOk then ClockedIn
                     else StorageFailed
      ensures n == ClockedIn ==>
                store.records == Some(OrEmpty(old(store.records))
                                      + [Record(recordId, Find(old(employees), old(selected)).value.name,
                                                instant + 25_200_000, None)])
      ensures n != ClockedIn ==> store.records == old(store.records)
      ensures Extends(OrEmpty(old(store.records)), OrEmpty(store.records))
      ensures store.employees == old(store.employees)
      ensures employees == old(employees) && selected == old(selected) && newName == old(newName)
    {
      if selected == "" {
        n := SelectionRequired;
        return;
      }
      var now := ThaiTime(instant);
      if now.None? {
        n := Uncaught;
        return;
      }
      var employee := Find(employees, selected);
      if employee.None? {
        n := Uncaught;
        return;
      }
      var rec := Record(recordId, employee.value.name, now.value, None);
      if !readOk {
        n := StorageFailed;
        return;
      }
      var records := OrEmpty(store.records);
      if !writeOk {
        n := StorageFailed;
        return;
      }
      store := store.(records := Some(records + [rec]));
      n := ClockedIn;
    }

    /** `handleClockOut`. The shifted time and the read of `records` come
        before the try block, so their failures escape the handler. A
        selected id that names no employee matches no record; the records
        are then written back unchanged (an absent key becomes `[]`). */
    method ClockOut(instant: int, readOk: bool, writeOk: bool) returns (n: Notice)
      requires IsTimeValue(instant)
      modifies this
      ensures old(selected) == "" ==> n == SelectionRequired
      ensures old(selected) != "" ==>
                n == if ThaiTime(instant).None? || !readOk then Uncaught
                     else if writeOk then ClockedOut
                     else StorageFailed
      ensures n == ClockedOut ==>
                var who := Find(old(employees), old(selected));
                store.records == Some(if who.Some?
                                      then CloseOpen(OrEmpty(old(store.records)), who.value.name, instant + 25_200_000)
                                      else OrEmpty(old(store.records)))
      ensures n == ClockedOut && Find(old(employees), old(selected)).Some? ==>
                NoOpenFor(OrEmpty(store.records), Find(old(employees), old(selected)).value.name)
      ensures n != ClockedOut ==> store.records == old(store.records)
      ensures Extends(OrEmpty(old(store.records)), OrEmpty(store.records))
      ensures store.employees == old(store.employees)
      ensures employees == old(employees) && selected == old(selected) && newName == old(newName)
    {
      if selected == "" {
        n := SelectionRequired;
        return;
      }
      var now := ThaiTime(instant);
      if now.None? || !readOk {
        n := Uncaught;
        return;
      }
      var records := OrEmpty(store.records);
      var employee := Find(employees, selected);
      var updated := if employee.Some? then CloseOpen(records, employee.value.name, now.value) else records;
      if !writeOk {
        n := StorageFailed;
        return;
      }
      store := store.(records := Some(updated));
      n := ClockedOut;
    }
  }
}
