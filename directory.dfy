/** The employee directory: the ordered list stored under the `employees`
    key. Entries are `{id, name}`; ids are opaque strings. */
module Directory {
  import opened Wrappers

  datatype Employee = Employee(id: string, name: string)

  /** `employees.filter(employee => employee.id !== id)`: the directory
      with every entry carrying `id` removed. */
  function WithoutId(s: seq<Employee>, id: string): (r: seq<Employee>)
    ensures |r| <= |s|
    ensures forall e | e in r :: e in s && e.id != id
    ensures forall e | e in s && e.id != id :: e in r
  {
    if s == [] then []
    else if s[0].id != id then [s[0]] + WithoutId(s[1..], id)
    else WithoutId(s[1..], id)
  }

  /** `employees.find(emp => emp.id === id)`: the first entry with `id`,
      or `None` (JavaScript's `undefined`) when there is none. */
  function Find(s: seq<Employee>, id: string): (r: Option<Employee>)
    ensures r.Some? ==> r.value in s && r.value.id == id
    ensures r.None? <==> forall e | e in s :: e.id != id
  {
    if s == [] then None
    else if s[0].id == id then Some(s[0])
    else Find(s[1..], id)
  }

  /** `Find` returns the FIRST matching entry: the one at index `k` when no
      earlier entry carries the id. */
  lemma {:induction false} FindFirst(s: seq<Employee>, id: string, k: nat)
    requires k < |s| && s[k].id == id
    requires forall j | 0 <= j < k :: s[j].id != id
    ensures Find(s, id) == Some(s[k])
  {
    if k > 0 {
      assert s[0].id != id;
      FindFirst(s[1..], id, k - 1);
    }
  }

  /** Filtering distributes over concatenation; with the one-entry cases
      this is what makes `WithoutId` a filter: the kept entries appear in
      their original order. */
  lemma {:induction false} WithoutIdConcat(a: seq<Employee>, b: seq<Employee>, id: string)
    ensures WithoutId(a + b, id) == WithoutId(a, id) + WithoutId(b, id)
    ensures WithoutId([], id) == []
    ensures forall e :: WithoutId([e], id) == if e.id == id then [] else [e]
  {
    forall e ensures WithoutId([e], id) == if e.id == id then [] else [e] {
      assert [e][1..] == [];
    }
    if a == [] {
      assert a + b == b;
    } else {
      assert (a + b)[0] == a[0];
      assert (a + b)[1..] == a[1..] + b;
      WithoutIdConcat(a[1..], b, id);
    }
  }

  /** Deleting an id that no entry carries changes nothing, and only such a
      delete leaves the directory as it was. */
  lemma {:induction false} WithoutIdAbsent(s: seq<Employee>, id: string)
    ensures WithoutId(s, id) == s <==> forall e | e in s :: e.id != id
  {
    if s != [] && forall e | e in s :: e.id != id {
      assert forall e | e in s[1..] :: e.id != id by {
        forall e | e in s[1..] ensures e.id != id { assert e in s; }
      }
      WithoutIdAbsent(s[1..], id);
      assert s == [s[0]] + s[1..];
    }
  }

  /** Deleting twice is deleting once. */
  lemma WithoutIdIdempotent(s: seq<Employee>, id: string)
    ensures WithoutId(WithoutId(s, id), id) == WithoutId(s, id)
  {
    WithoutIdAbsent(WithoutId(s, id), id);
  }

  /** Deleting one id and then another gives the same directory as
      deleting them in the other order. */
  lemma {:induction false} WithoutIdCommutes(s: seq<Employee>, a: string, b: string)
    ensures WithoutId(WithoutId(s, a), b) == WithoutId(WithoutId(s, b), a)
  {
    if s != [] {
      WithoutIdCommutes(s[1..], a, b);
    }
  }
}
