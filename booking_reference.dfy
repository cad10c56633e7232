/** Booking references: ten characters drawn with replacement from the
    upper-case ASCII letters followed by the digits (backend/main.py,
    generate_booking_reference). The random choices are the `draws`, one
    index into the alphabet per character; nothing checks references for
    collisions, so no uniqueness is claimed. */
module BookingReference {

  const Alphabet: string := "ABCDEFGHIJKLMNOPQRSTUVWXYZ0123456789"
  const ReferenceLength: nat := 10

  /** One random choice: an index into `Alphabet`. */
  type Draw = d: nat | d < 36

  predicate IsReferenceChar(c: char)
  {
    ('A' <= c <= 'Z') || ('0' <= c <= '9')
  }

  predicate IsReference(s: string)
  {
    |s| == ReferenceLength && forall i :: 0 <= i < |s| ==> IsReferenceChar(s[i])
  }

  function Generate(draws: seq<Draw>): (r: string)
    requires |draws| == ReferenceLength
    ensures IsReference(r)
  {
    seq(|draws|, i requires 0 <= i < |draws| => Alphabet[draws[i]])
  }

  /** The alphabet position of a reference character. */
  function IndexOf(c: char): (d: Draw)
    requires IsReferenceChar(c)
    ensures Alphabet[d] == c
  {
    if 'A' <= c <= 'Z' then (c as int - 'A' as int) else 26 + (c as int - '0' as int)
  }

  /** The alphabet's character at a position, by code: letters from 'A',
      then digits from '0'. */
  function CharAt(d: Draw): char
  {
    if d < 26 then ('A' as int + d) as char else ('0' as int + (d - 26)) as char
  }

  lemma AlphabetByCode()
    ensures forall d :: 0 <= d < 36 ==> Alphabet[d] == CharAt(d)
  {
  }

  /** Distinct alphabet positions give distinct characters. */
  lemma AlphabetInjective(d: Draw, e: Draw)
    requires Alphabet[d] == Alphabet[e]
    ensures d == e
  {
    AlphabetByCode();
    assert CharAt(d) == CharAt(e);
  }

  /** Every well-formed reference is produced by some sequence of draws:
      the generator's image is the whole format. */
  lemma GenerateOnto(s: string)
    requires IsReference(s)
    ensures var draws := seq(|s|, i requires 0 <= i < |s| => IndexOf(s[i]));
            Generate(draws) == s
  {
  }

  /** No two draw sequences collide on the same reference. */
  lemma GenerateInjective(draws: seq<Draw>, other: seq<Draw>)
    requires |draws| == ReferenceLength && |other| == ReferenceLength
    requires Generate(draws) == Generate(other)
    ensures draws == other
  {
    forall i | 0 <= i < ReferenceLength ensures draws[i] == other[i] {
      assert Generate(draws)[i] == Generate(other)[i];
      AlphabetInjective(draws[i], other[i]);
    }
  }
}
