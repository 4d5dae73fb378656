/** The attendance ledger: the ordered list of time records stored under
    the `records` key. A record copies the employee's name at clock-in and
    is open until its `clockOut` is set. Timestamps are integer
    milliseconds. */
module Ledger {
  import opened Wrappers

  datatype Record = Record(id: string, name: string, clockIn: int, clockOut: Option<int>)

  /** A record of `name` whose shift is still open (`!record.clockOut`). */
  predicate OpenFor(r: Record, name: string) {
    r.name == name && r.clockOut.None?
  }

  /** No record of `name` is open. */
  predicate NoOpenFor(rs: seq<Record>, name: string) {
    forall i | 0 <= i < |rs| :: !OpenFor(rs[i], name)
  }

  /** The clock-out transform: `records.map(record => matches && !record.clockOut
      ? {...record, clockOut: now} : record)`. Every open record of `name`
      is closed at `at`, all with the same timestamp; every other record is
      kept as it is, so no record of `name` is left open. */
  function CloseOpen(rs: seq<Record>, name: string, at: int): (r: seq<Record>)
    ensures |r| == |rs|
    ensures forall i | 0 <= i < |rs| && OpenFor(rs[i], name) :: r[i] == rs[i].(clockOut := Some(at))
    ensures forall i | 0 <= i < |rs| && !OpenFor(rs[i], name) :: r[i] == rs[i]
    ensures NoOpenFor(r, name)
  {
    if rs == [] then []
    else
      var head := if OpenFor(rs[0], name) then rs[0].(clockOut := Some(at)) else rs[0];
      [head] + CloseOpen(rs[1..], name, at)
  }

  /** A clock-out changes the ledger exactly when some record of `name` is
      open: with none open it is a no-op. */
  lemma CloseOpenUnmatched(rs: seq<Record>, name: string, at: int)
    ensures CloseOpen(rs, name, at) == rs <==> NoOpenFor(rs, name)
  {
    var r := CloseOpen(rs, name, at);
    if NoOpenFor(rs, name) {
      assert forall i | 0 <= i < |rs| :: r[i] == rs[i];
    }
  }

  /** A second clock-out right after the first changes nothing, whatever
      its timestamp. */
  lemma CloseOpenIdempotent(rs: seq<Record>, name: string, at: int, later: int)
    ensures CloseOpen(CloseOpen(rs, name, at), name, later) == CloseOpen(rs, name, at)
  {
    CloseOpenUnmatched(CloseOpen(rs, name, at), name, later);
  }

  /** The number of open records of `name`. */
  function OpenCount(rs: seq<Record>, name: string): (n: nat) {
    if rs == [] then 0
    else (if OpenFor(rs[0], name) then 1 else 0) + OpenCount(rs[1..], name)
  }

  /** Having no open record of `name` is having an open count of zero. */
  lemma {:induction false} OpenCountZero(rs: seq<Record>, name: string)
    ensures OpenCount(rs, name) == 0 <==> NoOpenFor(rs, name)
  {
    if rs != [] {
      OpenCountZero(rs[1..], name);
      if NoOpenFor(rs, name) {
        assert NoOpenFor(rs[1..], name) by {
          forall i | 0 <= i < |rs| - 1 ensures !OpenFor(rs[1..][i], name) {
            assert rs[1..][i] == rs[i + 1];
          }
        }
      } else if OpenCount(rs[1..], name) == 0 && !OpenFor(rs[0], name) {
        forall i | 0 <= i < |rs| ensures !OpenFor(rs[i], name) {
          if i > 0 { assert rs[i] == rs[1..][i - 1]; }
        }
      }
    }
  }

  /** Appending a record adds one to the open count of its name exactly
      when it is open. */
  lemma {:induction false} OpenCountAppend(rs: seq<Record>, x: Record, name: string)
    ensures OpenCount(rs + [x], name) == OpenCount(rs, name) + if OpenFor(x, name) then 1 else 0
  {
    if rs == [] {
      assert [x][1..] == [];
    } else {
      assert (rs + [x])[1..] == rs[1..] + [x];
      OpenCountAppend(rs[1..], x, name);
    }
  }

  /** A clock-out for `name` closes all of its open records and leaves the
      open records of every other name open. */
  lemma {:induction false} CloseOpenCount(rs: seq<Record>, name: string, at: int, other: string)
    ensures OpenCount(CloseOpen(rs, name, at), other) == if other == name then 0 else OpenCount(rs, other)
  {
    if rs != [] {
      CloseOpenCount(rs[1..], name, at, other);
      assert CloseOpen(rs, name, at)[1..] == CloseOpen(rs[1..], name, at);
    }
  }

  /** Clock-in does not look for an open shift: two clock-ins of the same
      name leave two more open records, so the ledger can hold several
      open shifts for one employee. */
  lemma RepeatedClockIn(rs: seq<Record>, id1: string, id2: string, name: string, t1: int, t2: int)
    ensures OpenCount(rs + [Record(id1, name, t1, None)] + [Record(id2, name, t2, None)], name)
            == OpenCount(rs, name) + 2
  {
    OpenCountAppend(rs, Record(id1, name, t1, None), name);
    OpenCountAppend(rs + [Record(id1, name, t1, None)], Record(id2, name, t2, None), name);
  }

  /** Two records are the same entry: same id, name and clock-in time. */
  predicate SameEntry(a: Record, b: Record) {
    a.id == b.id && a.name == b.name && a.clockIn == b.clockIn
  }

  /** `after` is a later state of the ledger `before`: no record was
      removed or reordered, no record's id, name or clock-in changed, and no
      closed record was overwritten. */
  predicate Extends(before: seq<Record>, after: seq<Record>) {
    && |before| <= |after|
    && (forall i | 0 <= i < |before| :: SameEntry(before[i], after[i]))
    && (forall i | 0 <= i < |before| && before[i].clockOut.Some? :: after[i] == before[i])
  }

  /** Clock-in and clock-out both extend the ledger. */
  lemma ExtendsByTransform(rs: seq<Record>, x: Record, name: string, at: int)
    ensures Extends(rs, rs + [x])
    ensures Extends(rs, CloseOpen(rs, name, at))
  {
  }

  /** A later state of a later state is a later state. */
  lemma ExtendsTransitive(a: seq<Record>, b: seq<Record>, c: seq<Record>)
    requires Extends(a, b) && Extends(b, c)
    ensures Extends(a, c)
  {
  }

  /** A clock-in or clock-out as seen by the ledger. */
  datatype Event = In(recordId: string, name: string, at: int) | Out(name: string, at: int)

  function Apply(rs: seq<Record>, e: Event): (r: seq<Record>)
    ensures Extends(rs, r)
  {
    match e
    case In(id, name, at) => rs + [Record(id, name, at, None)]
    case Out(name, at) => CloseOpen(rs, name, at)
  }

  /** The ledger after the events, applied in order. */
  function Replay(rs: seq<Record>, es: seq<Event>): (r: seq<Record>)
    decreases |es|
  {
    if es == [] then rs else Replay(Apply(rs, es[0]), es[1..])
  }

  lemma {:induction false} ReplayConcat(rs: seq<Record>, a: seq<Event>, b: seq<Event>)
    ensures Replay(rs, a + b) == Replay(Replay(rs, a), b)
    decreases |a|
  {
    if a == [] {
      assert a + b == b;
    } else {
      assert (a + b)[0] == a[0];
      assert (a + b)[1..] == a[1..] + b;
      ReplayConcat(Apply(rs, a[0]), a[1..], b);
    }
  }

  /** History is append-and-close only: replaying any events extends the
      ledger. */
  lemma {:induction false} ReplayExtends(rs: seq<Record>, es: seq<Event>)
    ensures Extends(rs, Replay(rs, es))
    decreases |es|
  {
    if es != [] {
      ReplayExtends(Apply(rs, es[0]), es[1..]);
      ExtendsTransitive(rs, Apply(rs, es[0]), Replay(Apply(rs, es[0]), es[1..]));
    }
  }

  /** Events that do not clock `name` in keep `name` without open records. */
  lemma {:induction false} NoOpenKept(rs: seq<Record>, es: seq<Event>, name: string)
    requires NoOpenFor(rs, name)
    requires forall k | 0 <= k < |es| :: !(es[k].In? && es[k].name == name)
    ensures NoOpenFor(Replay(rs, es), name)
    decreases |es|
  {
    if es != [] {
      var next := Apply(rs, es[0]);
      assert NoOpenFor(next, name) by {
        if es[0].In? {
          forall i | 0 <= i < |next| ensures !OpenFor(next[i], name) {
            if i < |rs| { assert next[i] == rs[i]; }
          }
        }
      }
      assert forall k | 0 <= k < |es| - 1 :: es[1..][k] == es[k + 1];
      NoOpenKept(next, es[1..], name);
    }
  }

  /** The pairing invariant: after a clock-out of `name`, no record of
      `name` is open until `name` clocks in again, whatever other
      employees do in between. */
  lemma PairingInvariant(rs: seq<Record>, before: seq<Event>, name: string, at: int, after: seq<Event>)
    requires forall k | 0 <= k < |after| :: !(after[k].In? && after[k].name == name)
    ensures NoOpenFor(Replay(rs, before + [Out(name, at)] + after), name)
  {
    var mid := Replay(rs, before);
    ReplayConcat(rs, before + [Out(name, at)], after);
    ReplayConcat(rs, before, [Out(name, at)]);
    assert Replay(mid, [Out(name, at)]) == CloseOpen(mid, name, at);
    NoOpenKept(CloseOpen(mid, name, at), after, name);
  }
}
