/** The persisted `Customer` entity and its declared constraints. */
module Models {
  import opened Wrappers
  import opened Text
  import opened Dates

  /** `[MaxLength(100)]` on both names. */
  const MAX_NAME_LENGTH := 100

  /** A customer row. `id` is the key the store generates; the other three fields are mutable. */
  datatype Customer = Customer(id: int, firstName: string, lastName: string, dob: Date)

  /** `[Required]` on a string, as data-annotation validation reads it: not null, and not empty or
      white space only (`AllowEmptyStrings` is false). */
  predicate Required(s: Option<string>) {
    s.Some? && |Trim(s.value)| != 0
  }

  /** A required name within the length limit. */
  predicate ValidName(s: string) {
    Required(Some(s)) && |s| <= MAX_NAME_LENGTH
  }

  /** The entity's declared constraints: a store key (identity values start at 1), two required
      names of at most 100 characters and a date that `DateTime` can hold. */
  predicate Valid(c: Customer) {
    && c.id >= 1
    && ValidName(c.firstName)
    && ValidName(c.lastName)
    && ValidDate(c.dob)
  }

  /** A required string is exactly one holding a character that is not white space. */
  lemma RequiredIff(s: string)
    ensures Required(Some(s)) <==> exists i :: 0 <= i < |s| && !IsWhiteSpace(s[i])
  {
    TrimNonEmptyIff(s);
  }
}
