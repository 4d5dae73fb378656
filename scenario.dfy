/** Walks through a worked example on a fresh screen: add "Somchai", clock
    in, clock out, delete the employee. The ensures state what the methods'
    contracts let a caller conclude. */
module Scenario {
  import opened Wrappers
  import opened ThaiClock
  import opened Directory
  import opened Ledger
  import opened EmployeeSelection

  /** Starting from empty storage, the ledger ends with Somchai's one closed
      record, shifted by seven hours, and survives the deletion of the
      employee, while the directory ends empty. */
  method SomchaiScenario(t1: int, t2: int) returns (roster: seq<Employee>, ledger: seq<Record>)
    requires IsTimeValue(t1) && ThaiTime(t1).Some?
    requires IsTimeValue(t2) && ThaiTime(t2).Some?
    ensures roster == []
    ensures ledger == [Record("r1", "Somchai", t1 + 25_200_000, Some(t2 + 25_200_000))]
  {
    var screen := new Screen(Store(None, None), true);
    screen.EditName("Somchai");
    var n := screen.AddEmployee("t1", true);
    assert screen.employees == [Employee("t1", "Somchai")];
    screen.Select("t1");
    n := screen.ClockIn(t1, "r1", true, true);
    assert n == ClockedIn;
    assert Find([Employee("t1", "Somchai")], "t1") == Some(Employee("t1", "Somchai"));
    var first := Record("r1", "Somchai", t1 + 25_200_000, None);
    assert [] + [first] == [first];
    assert screen.store.records == Some([first]);
    n := screen.ClockOut(t2, true, true);
    assert n == ClockedOut;
    n := screen.DeleteEmployee("t1", true);
    roster := screen.employees;
    ledger := OrEmpty(screen.store.records);
  }

  /** Deleting the selected employee does not clear the picker, so the next
      clock-in fails to find the employee and escapes the handler without
      writing a record. */
  method DeletedSelection(t: int) returns (n: Notice, ledger: seq<Record>)
    requires IsTimeValue(t)
    ensures n == Uncaught
    ensures ledger == []
  {
    var screen := new Screen(Store(None, None), true);
    screen.EditName("Somchai");
    n := screen.AddEmployee("t1", true);
    screen.Select("t1");
    n := screen.DeleteEmployee("t1", true);
    n := screen.ClockIn(t, "r1", true, true);
    ledger := OrEmpty(screen.store.records);
  }
}
