/**
 * The repository's unit-test scenarios, replayed against the model. Each test seeds its table by
 * adding rows through the repository, with fixed dates in place of the tests' clock-relative ones.
 */
module RepositoryScenarios {
  import opened Wrappers
  import opened Text
  import opened Dates
  import opened Models
  import opened DTOs
  import opened Repositories

  function Request(firstName: string, lastName: string, dateOfBirth: string): CustomerDto {
    CustomerDto(Some(firstName), Some(lastName), Some(dateOfBirth))
  }

  /** A name that starts with a character other than white space and fits the column is storable. */
  lemma NameStorable(s: string)
    requires 0 < |s| <= MAX_NAME_LENGTH && !Text.IsWhiteSpace(s[0])
    ensures ValidName(s)
  {
    RequiredIff(s);
  }

  /** Adds a customer born on `dob`, sending the date as its `yyyy/MM/dd` rendering. */
  method Seed(repo: CustomerRepository, firstName: string, lastName: string, dob: Date) returns (c: Customer)
    requires repo.Valid() && ValidDate(dob)
    requires 0 < |firstName| <= MAX_NAME_LENGTH && !Text.IsWhiteSpace(firstName[0])
    requires 0 < |lastName| <= MAX_NAME_LENGTH && !Text.IsWhiteSpace(lastName[0])
    modifies repo
    ensures repo.Valid() && repo.Synced()
    ensures c == Customer(old(repo.nextId), firstName, lastName, dob)
    ensures repo.customers == old(repo.customers) + [c] && repo.nextId == old(repo.nextId) + 1
  {
    NameStorable(firstName);
    NameStorable(lastName);
    ParseFormat(dob);
    var r := repo.AddCustomer(Request(firstName, lastName, FormatDate(dob)));
    c := r.value;
  }

  /** Three seeded customers make a table of three. */
  method GetCustomersReturnsThreeCustomers() returns (count: nat)
    ensures count == 3
  {
    var repo := new CustomerRepository();
    var _ := Seed(repo, "Syed", "Majeeduddin", Date(2001, 10, 17));
    var _ := Seed(repo, "John", "Alexander", Date(1991, 10, 17));
    var _ := Seed(repo, "Trent", "Smith", Date(1970, 10, 17));
    count := |repo.GetCustomers()|;
  }

  /** On a fresh store keys follow insertion order, so key 2 is the second customer added. */
  method GetCustomerByIdReturnsIdTwo() returns (found: Option<Customer>)
    ensures found.Some? && found.value.firstName == "John" && found.value.id == 2
  {
    var repo := new CustomerRepository();
    var _ := Seed(repo, "Syed", "Majeeduddin", Date(2001, 10, 17));
    var _ := Seed(repo, "John", "Alexander", Date(1991, 10, 17));
    var _ := Seed(repo, "Trent", "Smith", Date(1970, 10, 17));
    found := FindById(repo.GetCustomers(), 2);
  }

  /** A create returns the new row, with the names of the request and its converted date. */
  method AddCustomerReturnsCustomerByName() returns (added: Result<Customer, ConversionError>)
    ensures added.Success?
    ensures added.value == Customer(2, "Mathew", "Hayden", Date(1982, 12, 10))
  {
    var repo := new CustomerRepository();
    var _ := Seed(repo, "Syed", "Majeeduddin", Date(2001, 10, 17));
    NameStorable("Mathew");
    NameStorable("Hayden");
    assert ParseDate("1982/12/10") == Some(Date(1982, 12, 10));
    added := repo.AddCustomer(Request("Mathew", "Hayden", "1982/12/10"));
  }

  /** An update is visible through a following lookup. */
  method UpdateCustomerUpdatesIdOne() returns (found: Option<Customer>)
    ensures found == Some(Customer(1, "Ricky", "Pointing", Date(1982, 12, 10)))
  {
    var repo := new CustomerRepository();
    var _ := Seed(repo, "Syed", "Majeeduddin", Date(2001, 10, 17));
    NameStorable("Ricky");
    NameStorable("Pointing");
    assert ParseDate("1982/12/10") == Some(Date(1982, 12, 10));
    var _ := repo.UpdateCustomer(1, Request("Ricky", "Pointing", "1982/12/10"));
    found := FindById(repo.GetCustomers(), 1);
  }

  /** Deleting one of two customers leaves exactly the other one. */
  method DeleteCustomerDeletesIdTwo() returns (rows: seq<Customer>)
    ensures |rows| == 1 && rows[0].firstName == "Syed"
  {
    var repo := new CustomerRepository();
    var _ := Seed(repo, "Syed", "Majeeduddin", Date(2001, 10, 17));
    var _ := Seed(repo, "John", "Alexander", Date(1991, 10, 17));
    repo.DeleteCustomer(2);
    rows := repo.GetCustomers();
  }

  /** A filter found in one customer's first name and in the other's last name finds both. */
  method SearchCustomerBySyed() returns (found: seq<Customer>)
    ensures |found| == 2
  {
    var repo := new CustomerRepository();
    var syed := Seed(repo, "Syed", "Majeeduddin", Date(2001, 10, 17));
    var john := Seed(repo, "John", "Syed", Date(1991, 10, 17));
    MatchesSyed(syed);
    MatchesSyed(john);
    SearchAllRows(repo.customers, "Syed");
    found := FindCustomerByName(repo.customers, repo.committed, "Syed");
  }

  lemma MatchesSyed(c: Customer)
    requires c.firstName == "Syed" || c.lastName == "Syed"
    ensures NameMatches(c, "Syed")
  {
    assert ToLower("Syed") == "syed";
    assert "syed"[..4] == "syed";
  }

  /** A create whose date does not convert adds nothing. */
  method AddWithBadDateAddsNothing() returns (added: Result<Customer, ConversionError>, count: nat)
    ensures added == Failure(FormatException) && count == 1
  {
    var repo := new CustomerRepository();
    var _ := Seed(repo, "Syed", "Majeeduddin", Date(2001, 10, 17));
    NameStorable("Mathew");
    NameStorable("Hayden");
    added := repo.AddCustomer(Request("Mathew", "Hayden", "10th of December"));
    count := |repo.GetCustomers()|;
  }

  /** An update whose date does not convert is not atomic: the new names stay pending in the
      context, lookups in the same context already see them, and the next successful save
      stores them although the update failed. */
  method FailedUpdateNamesReachStore()
    returns (outcome: Outcome<ConversionError>, seen: string, storedBefore: string, storedAfter: string)
    ensures outcome == Fail(FormatException)
    ensures seen == "Ricky" && storedBefore == "Syed" && storedAfter == "Ricky"
  {
    var repo := new CustomerRepository();
    var syed := Seed(repo, "Syed", "Majeeduddin", Date(2001, 10, 17));
    assert ParseDate("yesterday").None?;
    assert IndexOf([syed], 1) == 0;
    NameStorable("Ricky");
    NameStorable("Pointing");
    outcome := repo.UpdateCustomer(1, Request("Ricky", "Pointing", "yesterday"));
    assert repo.customers == [syed.(firstName := "Ricky", lastName := "Pointing")];
    assert repo.committed == [syed];
    seen := FindById(repo.GetCustomers(), 1).value.firstName;
    storedBefore := repo.committed[0].firstName;
    var _ := Seed(repo, "Mathew", "Hayden", Date(1982, 12, 10));
    storedAfter := repo.committed[0].firstName;
  }
}
