/**
 * `CustomerRepository`: the customer table held through a data context, with its queries
 * (functions over the rows) and its writes (methods of the repository class).
 */
module Repositories {
  import opened Wrappers
  import opened Text
  import opened Dates
  import opened Models
  import opened DTOs

  /** `Convert.ToDateTime` threw: the date-of-birth text is not a date. */
  datatype ConversionError = FormatException

  /** Keys strictly increase along the table: each key occurs once and rows keep insertion order. */
  ghost predicate IdsAscending(t: seq<Customer>) {
    forall i, j :: 0 <= i < j < |t| ==> t[i].id < t[j].id
  }

  /** Every row satisfies the entity's constraints and the keys ascend. */
  ghost predicate WellFormed(t: seq<Customer>) {
    IdsAscending(t) && forall i :: 0 <= i < |t| ==> Valid(t[i])
  }

  /** Two tables hold the same rows in the same order with the same keys and dates: they can differ in names only. */
  ghost predicate SameKeys(a: seq<Customer>, b: seq<Customer>) {
    |a| == |b| && forall i :: 0 <= i < |a| ==> a[i].id == b[i].id && a[i].dob == b[i].dob
  }

  // ---------------------------------------------------------------- queries

  /** `FindById`: the first row whose key is `id`, or `None` (null) when there is none. */
  function FindById(t: seq<Customer>, id: int): (r: Option<Customer>)
    ensures r.Some? ==> r.value in t && r.value.id == id
    ensures r.None? <==> forall c :: c in t ==> c.id != id
  {
    if t == [] then None
    else if t[0].id == id then Some(t[0])
    else FindById(t[1..], id)
  }

  /** The position of the row with key `id`: what `Find(id)` locates before a change. */
  function IndexOf(t: seq<Customer>, id: int): (i: nat)
    requires FindById(t, id).Some?
    ensures i < |t| && t[i] == FindById(t, id).value
  {
    if t[0].id == id then 0 else 1 + IndexOf(t[1..], id)
  }

  /** The search condition: the lower-cased filter occurs in the lower-cased first or last name. */
  predicate NameMatches(c: Customer, filter: string) {
    || Contains(ToLower(c.firstName), ToLower(filter))
    || Contains(ToLower(c.lastName), ToLower(filter))
  }

  /** `FindCustomerByName`: the condition is evaluated on the stored rows `stored`, and the matching
      rows are returned as the context sees them (`view`, position by position). */
  function FindCustomerByName(view: seq<Customer>, stored: seq<Customer>, filter: string): (r: seq<Customer>)
    requires |view| == |stored|
    ensures |r| <= |view|
    ensures forall c :: c in r ==> c in view
  {
    if view == [] then []
    else
      var head := if NameMatches(stored[0], filter) then [view[0]] else [];
      head + FindCustomerByName(view[1..], stored[1..], filter)
  }

  // ---------------------------------------------------------------- lemmas about the queries

  /** With unique keys, every row is the one found by its key. */
  lemma {:induction false} FindRow(t: seq<Customer>, i: int)
    requires IdsAscending(t) && 0 <= i < |t|
    ensures FindById(t, t[i].id) == Some(t[i])
  {
    if i > 0 {
      assert t[0].id < t[i].id;
      assert t[1..][i - 1] == t[i];
      FindRow(t[1..], i - 1);
    }
  }

  /** Appending a row with a key above all others makes it findable and changes no other lookup. */
  lemma {:induction false} FindAfterAppend(t: seq<Customer>, c: Customer, x: int)
    requires forall i :: 0 <= i < |t| ==> t[i].id < c.id
    ensures FindById(t + [c], x) == if x == c.id then Some(c) else FindById(t, x)
  {
    if t == [] {
      assert [c][1..] == [];
    } else {
      assert (t + [c])[1..] == t[1..] + [c];
      FindAfterAppend(t[1..], c, x);
    }
  }

  /** Replacing a row by one with the same key changes the lookup of that key only. */
  lemma {:induction false} FindAfterReplace(t: seq<Customer>, i: int, c: Customer, x: int)
    requires IdsAscending(t) && 0 <= i < |t| && c.id == t[i].id
    ensures FindById(t[i := c], x) == if x == c.id then Some(c) else FindById(t, x)
  {
    if i == 0 {
      assert t[i := c][1..] == t[1..];
      if x == c.id {
      } else {
      }
    } else {
      assert t[0].id < t[i].id;
      assert t[i := c][1..] == t[1..][i - 1 := c];
      FindAfterReplace(t[1..], i - 1, c, x);
    }
  }

  /** With ascending keys, the first row's key occurs nowhere in the rest. */
  lemma HeadKeyNotInTail(t: seq<Customer>)
    requires IdsAscending(t) && t != []
    ensures FindById(t[1..], t[0].id).None?
  {
    forall c | c in t[1..] ensures c.id != t[0].id {
      var k :| 0 <= k < |t[1..]| && t[1..][k] == c;
      assert t[k + 1] == c;
    }
  }

  /** Removing the row at `i` makes its key absent and changes no other lookup. */
  lemma {:induction false} FindAfterRemove(t: seq<Customer>, i: int, x: int)
    requires IdsAscending(t) && 0 <= i < |t|
    ensures FindById(t[..i] + t[i + 1..], x) == if x == t[i].id then None else FindById(t, x)
  {
    var r := t[..i] + t[i + 1..];
    if i == 0 {
      assert r == t[1..];
      if x == t[0].id {
        HeadKeyNotInTail(t);
      }
    } else {
      var rest := t[1..];
      assert t[0].id < t[i].id;
      assert r[0] == t[0];
      assert r[1..] == rest[..i - 1] + rest[i..];
      assert rest[i - 1] == t[i];
      FindAfterRemove(rest, i - 1, x);
    }
  }

  /** The search returns, from the context's rows, exactly those whose stored counterpart at the
      same position matches the filter. After a failed update the two can differ in names: the
      filter is then tested on the stored names and the pending ones are returned. */
  lemma {:induction false} SearchFilters(view: seq<Customer>, stored: seq<Customer>, filter: string, c: Customer)
    requires |view| == |stored|
    ensures c in FindCustomerByName(view, stored, filter) <==>
      exists i :: 0 <= i < |view| && view[i] == c && NameMatches(stored[i], filter)
  {
    if view != [] {
      var tail := FindCustomerByName(view[1..], stored[1..], filter);
      SearchFilters(view[1..], stored[1..], filter, c);
      if c in tail {
        var i :| 0 <= i < |view[1..]| && view[1..][i] == c && NameMatches(stored[1..][i], filter);
        assert view[i + 1] == c && stored[i + 1] == stored[1..][i];
      }
      if exists i :: 0 <= i < |view| && view[i] == c && NameMatches(stored[i], filter) {
        var i :| 0 <= i < |view| && view[i] == c && NameMatches(stored[i], filter);
        if i > 0 {
          assert view[1..][i - 1] == c && stored[1..][i - 1] == stored[i];
        }
      }
    }
  }

  /** On a table the context sees as stored, the search returns exactly the matching rows. */
  lemma SearchExact(t: seq<Customer>, filter: string, c: Customer)
    ensures c in FindCustomerByName(t, t, filter) <==> c in t && NameMatches(c, filter)
  {
    SearchFilters(t, t, filter, c);
    if c in t && NameMatches(c, filter) {
      var i :| 0 <= i < |t| && t[i] == c;
    }
  }

  /** When every row matches, the search returns the whole table, in the table's order. */
  lemma {:induction false} SearchAllRows(t: seq<Customer>, filter: string)
    requires forall i :: 0 <= i < |t| ==> NameMatches(t[i], filter)
    ensures FindCustomerByName(t, t, filter) == t
  {
    if t != [] {
      SearchAllRows(t[1..], filter);
    }
  }

  /** An empty filter matches every row, so the search returns the whole table. */
  lemma EmptyFilterMatchesAll(t: seq<Customer>)
    ensures FindCustomerByName(t, t, "") == t
  {
    forall i | 0 <= i < |t| ensures NameMatches(t[i], "") {
      ContainsEmpty(ToLower(t[i].firstName));
    }
    SearchAllRows(t, "");
  }

  /** The filter's case does not matter: it is lower-cased before the comparison. */
  lemma MatchIgnoresFilterCase(c: Customer, filter: string)
    ensures NameMatches(c, filter) <==> NameMatches(c, ToLower(filter))
  {
    ToLowerIdempotent(filter);
  }

  // ---------------------------------------------------------------- the repository

  /**
   * The repository over one data context. `customers` is what the context's queries see: the
   * stored rows, with the edits of tracked entities applied even before they are saved.
   * `committed` is what the store holds as of the last save. Every save commits all tracked
   * edits, so a successful write leaves the two equal.
   */
  class CustomerRepository {
    var customers: seq<Customer>
    var committed: seq<Customer>
    /** The identity value the store hands out next. */
    var nextId: int

    ghost predicate Valid()
      reads this
    {
      TableInvariant(customers, committed, nextId)
    }

    /** No edit is pending: the context sees what the store holds. */
    predicate Synced()
      reads this
    {
      customers == committed
    }

    /** A repository over an empty store. */
    constructor ()
      ensures Valid() && Synced()
      ensures customers == [] && nextId == 1
    {
      customers := [];
      committed := [];
      nextId := 1;
    }

    /** `GetCustomers`: every row, in key order, each a valid entity and each the row found by its key. */
    function GetCustomers(): (r: seq<Customer>)
      reads this
      requires Valid()
      ensures WellFormed(r) && |r| == |customers|
      ensures forall i :: 0 <= i < |r| ==> FindById(customers, r[i].id) == Some(r[i])
    {
      AllRowsFound(customers);
      customers
    }

    /** `AddCustomer`: the date is converted first; on success one row with a fresh key is appended
        and saved, on failure nothing changes. */
    method AddCustomer(dto: CustomerDto) returns (r: Result<Customer, ConversionError>)
      requires Valid() && NamesStorable(dto)
      modifies this
      ensures Valid()
      ensures ConvertToDateTime(dto.dateOfBirth).None? ==>
        && r == Failure(FormatException)
        && customers == old(customers) && committed == old(committed) && nextId == old(nextId)
      ensures ConvertToDateTime(dto.dateOfBirth).Some? ==>
        && r == Success(ToCustomer(dto, old(nextId), ConvertToDateTime(dto.dateOfBirth).value))
        && customers == old(customers) + [r.value]
        && Synced() && nextId == old(nextId) + 1
      ensures r.Success? ==> FindById(customers, r.value.id) == Some(r.value)
      ensures r.Success? ==> forall x :: x != r.value.id ==> FindById(customers, x) == old(FindById(customers, x))
    {
      var dob := ConvertToDateTime(dto.dateOfBirth);
      if dob.None? {
        return Failure(FormatException);
      }
      var newCustomer := ToCustomer(dto, nextId, dob.value);
      AppendKeepsInvariant(customers, committed, nextId, newCustomer);
      forall x {
        FindAfterAppend(customers, newCustomer, x);
      }
      customers := customers + [newCustomer];
      nextId := nextId + 1;
      committed := customers;
      r := Success(newCustomer);
    }

    /** `UpdateCustomer`: both names of the tracked row are overwritten, then the date is converted;
        only when it converts is the date set and everything saved. A failed conversion leaves the
        new names pending in the context and the store unchanged. */
    method UpdateCustomer(id: int, dto: CustomerDto) returns (r: Outcome<ConversionError>)
      requires Valid() && NamesStorable(dto)
      requires FindById(customers, id).Some?
      modifies this
      ensures Valid() && nextId == old(nextId)
      ensures
        var i := IndexOf(old(customers), id);
        var renamed := old(customers)[i].(firstName := dto.firstName.value, lastName := dto.lastName.value);
        match ConvertToDateTime(dto.dateOfBirth)
        case None =>
          r == Fail(FormatException) && customers == old(customers)[i := renamed] && committed == old(committed)
        case Some(d) =>
          r == Pass && customers == old(customers)[i := renamed.(dob := d)] && Synced()
      ensures FindById(customers, id).Some?
      ensures Some(FindById(customers, id).value.firstName) == dto.firstName
      ensures Some(FindById(customers, id).value.lastName) == dto.lastName
      ensures r.Pass? ==> Some(FindById(customers, id).value.dob) == ConvertToDateTime(dto.dateOfBirth)
      ensures forall x :: x != id ==> FindById(customers, x) == old(FindById(customers, x))
    {
      var i := IndexOf(customers, id);
      var customer := customers[i];
      customer := customer.(firstName := dto.firstName.value);
      customer := customer.(lastName := dto.lastName.value);
      ReplaceKeepsInvariant(customers, committed, nextId, i, customer);
      forall x {
        FindAfterReplace(customers, i, customer, x);
      }
      customers := customers[i := customer];
      var dob := ConvertToDateTime(dto.dateOfBirth);
      if dob.None? {
        return Fail(FormatException);
      }
      ghost var renamed := customers;
      customer := customer.(dob := dob.value);
      ReplaceKeepsInvariant(customers, committed, nextId, i, customer);
      forall x {
        FindAfterReplace(renamed, i, customer, x);
      }
      customers := customers[i := customer];
      committed := customers;
      r := Pass;
    }

    /** `DeleteCustomer`: the row with key `id` is removed and the change saved. */
    method DeleteCustomer(id: int)
      requires Valid()
      requires FindById(customers, id).Some?
      modifies this
      ensures Valid() && Synced() && nextId == old(nextId)
      ensures
        var i := IndexOf(old(customers), id);
        customers == old(customers)[..i] + old(customers)[i + 1..]
      ensures |customers| == |old(customers)| - 1
      ensures FindById(customers, id).None?
      ensures forall x :: x != id ==> FindById(customers, x) == old(FindById(customers, x))
    {
      var i := IndexOf(customers, id);
      RemoveKeepsInvariant(customers, committed, nextId, i);
      forall x {
        FindAfterRemove(customers, i, x);
      }
      customers := customers[..i] + customers[i + 1..];
      committed := customers;
    }
  }

  lemma AllRowsFound(t: seq<Customer>)
    requires IdsAscending(t)
    ensures forall i :: 0 <= i < |t| ==> FindById(t, t[i].id) == Some(t[i])
  {
    forall i | 0 <= i < |t| {
      FindRow(t, i);
    }
  }

  // ---------------------------------------------------------------- the invariant the writes keep

  /** The context's rows and the stored rows are well formed, differ in names only, and every key
      is below the next identity value `bound`. */
  ghost predicate TableInvariant(view: seq<Customer>, stored: seq<Customer>, bound: int) {
    && WellFormed(view) && WellFormed(stored) && SameKeys(view, stored)
    && bound >= 1
    && forall i :: 0 <= i < |view| ==> view[i].id < bound
  }

  /** Adding a valid row with the next identity value, and saving, keeps the invariant. */
  lemma AppendKeepsInvariant(view: seq<Customer>, stored: seq<Customer>, bound: int, c: Customer)
    requires TableInvariant(view, stored, bound)
    requires Valid(c) && c.id == bound
    ensures TableInvariant(view + [c], view + [c], bound + 1)
  {
  }

  /** Overwriting a row with a valid one of the same key keeps the invariant once saved, and
      before saving as well when the date is unchanged. */
  lemma ReplaceKeepsInvariant(view: seq<Customer>, stored: seq<Customer>, bound: int, i: int, c: Customer)
    requires TableInvariant(view, stored, bound)
    requires 0 <= i < |view| && c.id == view[i].id && Valid(c)
    ensures TableInvariant(view[i := c], view[i := c], bound)
    ensures c.dob == view[i].dob ==> TableInvariant(view[i := c], stored, bound)
  {
  }

  /** Removing a row, and saving, keeps the invariant. */
  lemma RemoveKeepsInvariant(view: seq<Customer>, stored: seq<Customer>, bound: int, i: int)
    requires TableInvariant(view, stored, bound) && 0 <= i < |view|
    ensures TableInvariant(view[..i] + view[i + 1..], view[..i] + view[i + 1..], bound)
  {
    var r := view[..i] + view[i + 1..];
    forall k | 0 <= k < |r| ensures r[k] == view[if k < i then k else k + 1] {
    }
    forall a, b | 0 <= a < b < |r| ensures r[a].id < r[b].id {
      var a' := if a < i then a else a + 1;
      var b' := if b < i then b else b + 1;
      assert r[a] == view[a'] && r[b] == view[b'];
    }
  }
}
