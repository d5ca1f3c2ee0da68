/** Detected personal-data spans. */
module Entities {

  datatype PIIType =
    | PersonName | BirthDate | BirthPlace
    | PassportNumber | Citizenship | PassportIssuer | PassportDivisionCode | PassportIssueDate
    | DriverLicense
    | Address | Country | PostalCode | City | Street | House | Apartment
    | Email | Phone | Inn
    | BankCard | Cvv | Pin | CardholderName

  /** A span `start..end` of a text; `value` is the text the detector says it found. */
  datatype Entity = Entity(kind: PIIType, value: string, start: int, end: int, confidence: real)

  predicate Overlaps(a: Entity, b: Entity) {
    a.start < b.end && b.start < a.end
  }

  /** In text order, each span ending before the next begins. */
  ghost predicate Apart(s: seq<Entity>) {
    forall i, j :: 0 <= i < j < |s| ==> s[i].end <= s[j].start
  }

  lemma ApartFront(s: seq<Entity>)
    requires Apart(s) && s != []
    ensures Apart(s[..|s| - 1])
    ensures |s| > 1 ==> s[|s| - 2].end <= s[|s| - 1].start
  {
  }
}
