# Customer repository — a Dafny model

This project models the data-access core of a small customer-management API: the `Customer`
entity (a store-generated key, a first and a last name of at most 100 characters, a date of
birth), the `CustomerDto` transfer object that create and update requests carry (three required
strings, the date as text), and the `CustomerRepository` that lists, finds, adds, updates,
deletes and searches customers through an Entity Framework data context.

Modules follow the program's namespaces:

- `Wrappers` — `Option` (a C# null is `None`), `Result`, `Outcome` (an exception is a failure value).
- `Text` — `ToLower` (ASCII letters only), `char.IsWhiteSpace`, `Trim`, and ordinal `Contains`.
- `Dates` — calendar dates, `Convert.ToDateTime` for the numeric `yyyy/MM/dd` form, and its inverse rendering.
- `Models` — the `Customer` datatype and its declared constraints (`Valid`).
- `DTOs` — the `CustomerDto` datatype, its `[Required]` checks (`Present`, `Validate`) and the entity a create builds.
- `Repositories` — the queries as functions over the table, and the class `CustomerRepository` whose
  methods change it.
- `RepositoryScenarios` — the repository's unit tests replayed as verified methods.

The repository class holds two tables. `customers` is what the data context's queries return:
the stored rows, with the edits made to tracked entities applied even before they are saved.
`committed` is what the store holds after the last save. `SaveChangesAsync` saves every pending
edit, so each successful write ends with the two equal (`Synced`). They differ only after an
`UpdateCustomer` whose date does not convert. That method assigns both names to the tracked row
before it converts the date, so the conversion's exception leaves the new names pending in the
context without saving them. The model keeps this order of steps: lookups in the same context
already see the new names, and the next successful save stores them (`FailedUpdateNamesReachStore`).
In production the data context is scoped to one request, which ends with that exception, so
there the pending names are discarded.

Keys are handed out by a counter that starts at 1 and only grows, as the in-memory store
configured for production does. `AddCustomer` converts the date before it adds the row, so a
failed conversion changes nothing.

## Model

| member | source | states |
|---|---|---|
| `Text.ToLower` | Customer.BL/Repositories/CustomerRepository.cs:102 | lower-casing keeps the length and maps every character through the ASCII folding, leaving no upper-case ASCII letter |
| `Text.ToLowerChar` | Customer.BL/Repositories/CustomerRepository.cs:102 | one character is lower-cased: A-Z map to a-z, every other character is unchanged, and no result is an upper-case ASCII letter |
| `Text.TrimStartExact` | Customer.BL/DTOs/CustomerDto.cs:17 | `TrimStart` removes exactly the leading white space: it returns a suffix of the input, everything it drops is white space, and what it keeps does not start with white space |
| `Text.TrimEndExact` | Customer.BL/DTOs/CustomerDto.cs:17 | `TrimEnd` removes exactly the trailing white space: it returns a prefix of the input, everything it drops is white space, and what it keeps does not end with white space |
| `Text.ToLowerIdempotent` | Customer.BL/Repositories/CustomerRepository.cs:102 | lower-casing twice is the same as lower-casing once |
| `Text.TrimNonEmptyIff` | Customer.BL/DTOs/CustomerDto.cs:17-18 | `Trim` leaves a non-empty string exactly when the string holds a character that is not white space (the test `[Required]` applies) |
| `Text.ContainsIff` | Customer.BL/Repositories/CustomerRepository.cs:102 | the `Contains` scan holds exactly when the substring occurs at some start position |
| `Text.ContainsEmpty` | Customer.BL/Repositories/CustomerRepository.cs:102 | the empty string is contained in every string |
| `Dates.DaysInMonth` | Customer.BL/Models/Customer.cs:28-29 | a month has 28 to 31 days, and 29 exactly for February of a Gregorian leap year |
| `Dates.ParseDate` | Customer.BL/Repositories/CustomerRepository.cs:56 | a successful conversion yields a date a `DateTime` can hold, from text of the `yyyy/MM/dd` or `yyyy-MM-dd` shape |
| `Dates.ConvertToDateTime` | Customer.BL/Repositories/CustomerRepository.cs:56 | null converts to `DateTime.MinValue`, other text is parsed, and any date produced is valid |
| `Dates.FormatDate` | Customer.BL/Repositories/CustomerRepository.cs:56 | the rendering of a date has the shape the conversion reads, with `/` separators |
| `Dates.ParseFormat` | Customer.BL/Repositories/CustomerRepository.cs:56 | every valid date is read back unchanged from its rendering |
| `Dates.FormatParse` | Customer.BL/Repositories/CustomerRepository.cs:56 | a `/`-separated text that converts is exactly the rendering of its date |
| `Models.RequiredIff` | Customer.BL/Models/Customer.cs:18-20 | a required name is exactly one with a character that is not white space |
| `DTOs.Validate` | Customer.BL/DTOs/CustomerDto.cs:17-31 | the model-state errors are empty exactly when all three `[Required]` checks hold, and name each failing field |
| `DTOs.ToCustomer` | Customer.BL/Repositories/CustomerRepository.cs:56 | the new entity carries the request's names and the converted date, takes its key from the store, and is valid when the names are storable |
| `DTOs.PresenceDoesNotParse` | Customer.BL/DTOs/CustomerDto.cs:30-31 | a request that passes validation may still carry a date that does not convert |
| `DTOs.PresenceDoesNotBoundLength` | Customer.BL/DTOs/CustomerDto.cs:17-25 | a request that passes validation may carry a name longer than the entity allows |
| `Repositories.FindById` | Customer.BL/Repositories/CustomerRepository.cs:44-47 | the result is a row with key `id`, and it is null exactly when no row has that key |
| `Repositories.IndexOf` | Customer.BL/Repositories/CustomerRepository.cs:72 | the position `Find(id)` locates holds the row found by that key |
| `Repositories.FindCustomerByName` | Customer.BL/Repositories/CustomerRepository.cs:100-104 | the search returns no more rows than the table holds, each of them a row as the context sees it; what it selects is stated by `SearchFilters` |
| `Repositories.SearchFilters` | Customer.BL/Repositories/CustomerRepository.cs:100-104 | on any state, including one with names pending after a failed update, a customer is in the result exactly when it is the context's row at some position whose stored row's lower-cased first or last name contains the lower-cased filter |
| `Repositories.FindRow` | Customer.BL/Models/Customer.cs:14-16 | with unique keys, every row is the one found by its own key |
| `Repositories.AllRowsFound` | Customer.BL/Repositories/CustomerRepository.cs:37 | every row of a table with unique keys is found by its key |
| `Repositories.FindAfterAppend` | Customer.BL/Repositories/CustomerRepository.cs:57 | after adding a row with a fresh key, that key finds it and every other lookup is unchanged |
| `Repositories.FindAfterReplace` | Customer.BL/Repositories/CustomerRepository.cs:73-75 | after overwriting a row in place, its key finds the new row and every other lookup is unchanged |
| `Repositories.FindAfterRemove` | Customer.BL/Repositories/CustomerRepository.cs:90 | after removing a row its key finds nothing and every other lookup is unchanged |
| `Repositories.AppendKeepsInvariant` | Customer.BL/Repositories/CustomerRepository.cs:56-58 | adding a valid row with the next identity value and saving keeps every row valid, keys unique and ascending, and all keys below the next identity value |
| `Repositories.ReplaceKeepsInvariant` | Customer.BL/Repositories/CustomerRepository.cs:72-78 | overwriting a row in place with a valid one of the same key keeps the invariant once saved, and before saving too when the date is unchanged |
| `Repositories.RemoveKeepsInvariant` | Customer.BL/Repositories/CustomerRepository.cs:89-91 | removing a row and saving keeps the remaining rows valid, in order, with unique ascending keys |
| `Repositories.SearchExact` | Customer.BL/Repositories/CustomerRepository.cs:102 | on a saved table a customer is in the search result exactly when it is a row whose lower-cased first or last name contains the lower-cased filter |
| `Repositories.SearchAllRows` | Customer.BL/Repositories/CustomerRepository.cs:102-103 | when every row matches, the search returns the whole table, rows in the table's order |
| `Repositories.EmptyFilterMatchesAll` | Customer.BL/Repositories/CustomerRepository.cs:102 | an empty filter returns every row |
| `Repositories.MatchIgnoresFilterCase` | Customer.BL/Repositories/CustomerRepository.cs:102 | lower-casing the filter beforehand does not change whether a customer matches |
| `Repositories.CustomerRepository.constructor` | Customer.BL/Repositories/CustomerRepository.cs:25-29 | a repository over an empty store is empty, saved, and will hand out key 1 first |
| `Repositories.CustomerRepository.GetCustomers` | Customer.BL/Repositories/CustomerRepository.cs:35-38 | returns every row, as many as the table holds, each valid, keys ascending, each the row found by its key |
| `Repositories.CustomerRepository.AddCustomer` | Customer.BL/Repositories/CustomerRepository.cs:54-61 | converts the date first; on failure nothing changes; on success exactly one row with the request's names, the converted date and the next key is appended and saved, returned, found by its key, and no other lookup changes |
| `Repositories.CustomerRepository.UpdateCustomer` | Customer.BL/Repositories/CustomerRepository.cs:69-80 | overwrites both names of row `id` in place, then converts the date; on success sets the date and saves, on failure leaves the names pending and the store unchanged; no other row changes |
| `Repositories.CustomerRepository.DeleteCustomer` | Customer.BL/Repositories/CustomerRepository.cs:86-93 | removes exactly row `id` and saves: the table shrinks by one, `id` is no longer found, every other lookup is unchanged |
| `RepositoryScenarios.GetCustomersReturnsThreeCustomers` | CustomerUnitTesting/CustomerRepositoryTests.cs:17-57 | three added customers make a table of three |
| `RepositoryScenarios.GetCustomerByIdReturnsIdTwo` | CustomerUnitTesting/CustomerRepositoryTests.cs:61-101 | on a fresh store key 2 finds the second customer added, John |
| `RepositoryScenarios.AddCustomerReturnsCustomerByName` | CustomerUnitTesting/CustomerRepositoryTests.cs:105-135 | adding Mathew Hayden born 1982/12/10 after one customer returns that customer with key 2 and date 10 December 1982 |
| `RepositoryScenarios.UpdateCustomerUpdatesIdOne` | CustomerUnitTesting/CustomerRepositoryTests.cs:139-172 | after updating key 1 to Ricky Pointing, key 1 finds Ricky Pointing |
| `RepositoryScenarios.DeleteCustomerDeletesIdTwo` | CustomerUnitTesting/CustomerRepositoryTests.cs:176-211 | deleting key 2 of two customers leaves exactly the first |
| `RepositoryScenarios.SearchCustomerBySyed` | CustomerUnitTesting/CustomerRepositoryTests.cs:215-248 | with Syed Majeeduddin and John Syed stored, the filter "Syed" finds both |
| `RepositoryScenarios.MatchesSyed` | CustomerUnitTesting/CustomerRepositoryTests.cs:243 | a customer with first or last name "Syed" matches the filter "Syed" |
| `RepositoryScenarios.AddWithBadDateAddsNothing` | Customer.BL/Repositories/CustomerRepository.cs:56-57 | a create whose date does not convert fails and leaves the table as it was |
| `RepositoryScenarios.FailedUpdateNamesReachStore` | Customer.BL/Repositories/CustomerRepository.cs:72-78 | an update whose date does not convert fails, yet the same context sees the new name and the next save stores it |

## Behaviour taken from the code

Where the intended design of the system and the code differ, the model follows the code:

- The repository has no duplicate-name check; a create always inserts (the controller's check is not part of this model).
- The date conversion is `Convert.ToDateTime`, which depends on the current culture, not a fixed locale-independent format; a null date text converts to `DateTime.MinValue` rather than failing.
- Update and delete of an absent key are not a "not found" result: the code dereferences or removes null, so the key's presence is a precondition that the callers establish.
- An update is not atomic: the names are assigned before the date is converted (see above).
- Search folds case with `ToLower` on both sides and uses ordinal `Contains`; an empty filter matches every row.

## Left out

- `DoesCustomerAlreadyExists`, the duplicate-name check the controller calls before a create, is not defined in `CustomerRepository.cs`, so there is no behaviour to model; check-then-insert atomicity is not claimed.
- The HTTP controller (routing, status codes, logging, turning exceptions into 500 responses), start-up and dependency-injection wiring, Swagger filters, the `DbContext` class and the seed loader are not part of this model. The scenarios seed their tables through `AddCustomer`, with fixed dates in place of the tests' `DateTime.Now`.
- Asynchrony: each repository call is one atomic step; `SaveAsync` is the assignment of `customers` to `committed`.
- Store and connectivity failures are not modelled; the only failure a write reports is the date conversion's `FormatException`.
- `Dates.ParseDate`: `Convert.ToDateTime` depends on the current culture and accepts many formats and a time of day; the model accepts only `yyyy/MM/dd` and `yyyy-MM-dd`, and dates have no time of day.
- `Text.ToLower`: .NET lower-casing is culture-sensitive and covers all of Unicode; the model folds the ASCII letters A-Z only.
- `Repositories.CustomerRepository.AddCustomer`: requires both names present and at most 100 characters (`NamesStorable`), which the controller's validation and the entity's annotations demand; the in-memory store enforces neither, so the code itself would store a null or overlong name.
- `Repositories.CustomerRepository.UpdateCustomer`: requires `NamesStorable` as `AddCustomer` does, and requires the key to be present; with an absent key the code dereferences null, and its callers look the key up first.
- `Repositories.CustomerRepository.DeleteCustomer`: requires the key to be present; with an absent key `Remove(null)` throws, and its callers look the key up first.
- Keys are unbounded integers: the 32-bit overflow of the identity column is not modelled, nor the reuse of the highest key after a delete that a SQLite store without `AUTOINCREMENT` allows.
- `FindCustomerByName` with a null filter throws; the model's filter is a string.
- Result order: the code applies no `OrderBy` in `GetCustomers` or `FindCustomerByName`, so it promises only unique keys and leaves the order of listed rows to the data provider. The model fixes that order as ascending key order, which is insertion order (`IdsAscending` in the table invariant), and `GetCustomers`, `SearchAllRows` and `EmptyFilterMatchesAll` state results in that order.
