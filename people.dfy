/**
 * The record of the contact manager and the bound on how many records the
 * store holds.
 */
module People {

  /** MAX_PEOPLE: the number of slots of the store's array. */
  const MAX_PEOPLE: nat := 1000

  /** The values of a C `int` (32-bit two's complement). */
  type Int32 = x: int | -0x8000_0000 <= x < 0x8000_0000

  /** One contact. The C struct keeps the three names in fixed char buffers; here they are strings. */
  datatype Person = Person(firstName: string, lastName: string, phoneNumber: string, age: Int32)

  /** C's `isspace` in the "C" locale: the range '\t'..'\r' of character codes, and the blank. */
  predicate IsSpace(c: char) {
    c == ' ' || '\t' <= c <= '\r'
  }

  /** The characters of that range are tab, newline, vertical tab, form feed and carriage return. */
  lemma SpaceCharacters(c: char)
    ensures IsSpace(c) <==> c in {' ', '\t', '\n', '\U{000B}', '\U{000C}', '\r'}
  {
  }

  /** No NUL character: C's string functions see all of the text. */
  predicate NulFree(w: string) {
    forall i :: 0 <= i < |w| ==> w[i] != '\0'
  }

  /**
   * A name `%s` stores and C's string functions see whole: at least one
   * character, no white space and no NUL.
   */
  predicate IsToken(w: string) {
    |w| > 0 && NulFree(w) && forall i :: 0 <= i < |w| ==> !IsSpace(w[i])
  }

  /** A record whose three text fields are tokens, so that its saved line reads back as itself. */
  predicate Storable(p: Person) {
    IsToken(p.firstName) && IsToken(p.lastName) && IsToken(p.phoneNumber)
  }

  predicate AllStorable(ps: seq<Person>) {
    forall i :: 0 <= i < |ps| ==> Storable(ps[i])
  }
}
