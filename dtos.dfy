/** The `CustomerDto` transfer object and its presence requirements. */
module DTOs {
  import opened Wrappers
  import opened Text
  import opened Dates
  import opened Models

  /** The request body of a create or update. Every field may be null (`None`); there is no id. */
  datatype CustomerDto = CustomerDto(firstName: Option<string>, lastName: Option<string>, dateOfBirth: Option<string>)

  /** The `[Required]` annotations all hold: the model state a controller checks is valid. */
  predicate Present(dto: CustomerDto) {
    Required(dto.firstName) && Required(dto.lastName) && Required(dto.dateOfBirth)
  }

  /** The model-state errors, as the names of the fields whose `[Required]` fails, in declaration order. */
  function Validate(dto: CustomerDto): (missing: seq<string>)
    ensures missing == [] <==> Present(dto)
    ensures "FirstName" in missing <==> !Required(dto.firstName)
    ensures "LastName" in missing <==> !Required(dto.lastName)
    ensures "DateOfBirth" in missing <==> !Required(dto.dateOfBirth)
    ensures |missing| <= 3
  {
    (if Required(dto.firstName) then [] else ["FirstName"])
    + (if Required(dto.lastName) then [] else ["LastName"])
    + (if Required(dto.dateOfBirth) then [] else ["DateOfBirth"])
  }

  /** Both names would satisfy the entity's constraints: present, and within `MAX_NAME_LENGTH`.
      The transfer object declares no length limit, so this is more than `Present`. */
  predicate NamesStorable(dto: CustomerDto) {
    && dto.firstName.Some? && ValidName(dto.firstName.value)
    && dto.lastName.Some? && ValidName(dto.lastName.value)
  }

  /** The entity a create builds from the request: the caller never supplies the id. */
  function ToCustomer(dto: CustomerDto, id: int, dob: Date): (c: Customer)
    requires NamesStorable(dto)
    ensures id >= 1 && ValidDate(dob) ==> Valid(c)
    ensures c.id == id && c.dob == dob
    ensures Some(c.firstName) == dto.firstName && Some(c.lastName) == dto.lastName
  {
    Customer(id, dto.firstName.value, dto.lastName.value, dob)
  }

  /** Validity checks presence only: a valid request may carry a date that does not convert. */
  lemma PresenceDoesNotParse()
    ensures exists dto :: Present(dto) && ConvertToDateTime(dto.dateOfBirth).None?
  {
    var dto := CustomerDto(Some("A"), Some("B"), Some("x"));
    assert Trim("A") == "A" && Trim("B") == "B" && Trim("x") == "x";
    assert Present(dto) && ConvertToDateTime(dto.dateOfBirth).None?;
  }

  /** Validity does not bound the names' length: a valid request may not be storable. */
  lemma PresenceDoesNotBoundLength()
    ensures exists dto :: Present(dto) && !NamesStorable(dto)
  {
    var long := seq(MAX_NAME_LENGTH + 1, _ => 'a');
    var dto := CustomerDto(Some(long), Some("B"), Some("x"));
    RequiredIff(long);
    assert long[0] == 'a';
    assert Trim("B") == "B" && Trim("x") == "x";
    assert Present(dto) && !NamesStorable(dto);
  }
}
