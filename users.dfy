/**
 * The `User` model: its one own operation, the display name built from the
 * first and last name properties.
 */
module Users {
  import opened Php

  /** `getFullName`: first and last name joined by a space, trimmed. */
  function GetFullName(firstName: string, lastName: string): (r: string)
    ensures r == [] || (!IsTrimSpace(r[0]) && !IsTrimSpace(r[|r| - 1]))
  {
    Trim(firstName + " " + lastName)
  }

  /** Without a first name, the full name is the trimmed last name. */
  lemma FullNameWithoutFirst(lastName: string)
    ensures GetFullName("", lastName) == Trim(lastName)
  {
    assert "" + " " + lastName == [' '] + lastName;
    TrimDropsLeadingSpace(' ', lastName);
  }

  /** Without a last name, the full name is the trimmed first name. */
  lemma FullNameWithoutLast(firstName: string)
    ensures GetFullName(firstName, "") == Trim(firstName)
  {
    assert firstName + " " + "" == firstName + [' '];
    TrimDropsTrailingSpace(firstName, ' ');
  }

  /** Two non-empty names without surrounding white space are joined by exactly one space. */
  lemma FullNameExact(firstName: string, lastName: string)
    requires firstName != [] && !IsTrimSpace(firstName[0]) && !IsTrimSpace(firstName[|firstName| - 1])
    requires lastName != [] && !IsTrimSpace(lastName[0]) && !IsTrimSpace(lastName[|lastName| - 1])
    ensures GetFullName(firstName, lastName) == firstName + " " + lastName
  {
    var s := firstName + " " + lastName;
    assert s[0] == firstName[0] && s[|s| - 1] == lastName[|lastName| - 1];
    TrimUnchanged(s);
  }

  /** Names that are empty or white space only give the empty full name. */
  lemma FullNameBlank(firstName: string, lastName: string)
    requires AllTrimSpace(firstName) && AllTrimSpace(lastName)
    ensures GetFullName(firstName, lastName) == ""
  {
    var s := firstName + " " + lastName;
    assert AllTrimSpace(s) by {
      forall k | 0 <= k < |s| ensures IsTrimSpace(s[k]) {
        if k < |firstName| {
          assert s[k] == firstName[k];
        } else if k > |firstName| {
          assert s[k] == lastName[k - |firstName| - 1];
        }
      }
    }
    TrimAllSpace(s);
  }
}
