/** Slug generation: a slug is a fixed-length string over the 36 characters
    A-Z and 0-9, each character chosen by one random draw. The randomness is
    a parameter: a draw is the sequence of indices into the alphabet that the
    random source picked. */
module SlugGenerator {

  /** The character pool: the upper-case ASCII letters followed by the digits. */
  const Alphabet: string := "ABCDEFGHIJKLMNOPQRSTUVWXYZ0123456789"

  /** The slug length used when no length is given. */
  const DefaultLength: nat := 6

  /** A character a slug may contain, defined independently of `Alphabet`. */
  predicate IsSlugChar(c: char) {
    'A' <= c <= 'Z' || '0' <= c <= '9'
  }

  /** A well-formed slug of the given length. */
  predicate IsSlug(s: string, length: nat) {
    |s| == length && forall i :: 0 <= i < |s| ==> IsSlugChar(s[i])
  }

  /** A possible outcome of `length` independent picks from the alphabet. */
  predicate IsDraw(d: seq<int>, length: nat) {
    |d| == length && forall i :: 0 <= i < |d| ==> 0 <= d[i] < |Alphabet|
  }

  /** The alphabet holds exactly the slug characters, each once, letters first. */
  lemma AlphabetLayout()
    ensures |Alphabet| == 36
    ensures forall k :: 0 <= k < 26 ==> Alphabet[k] == ('A' as int + k) as char
    ensures forall k :: 26 <= k < 36 ==> Alphabet[k] == ('0' as int + k - 26) as char
  {
  }

  /** Position of a slug character in the alphabet. */
  function IndexOf(c: char): (k: int)
    requires IsSlugChar(c)
    ensures 0 <= k < |Alphabet| && Alphabet[k] == c
  {
    AlphabetLayout();
    if 'A' <= c <= 'Z' then c as int - 'A' as int else c as int - '0' as int + 26
  }

  /** The picks that produce a given slug. */
  function DrawOf(s: string): (d: seq<int>)
    requires IsSlug(s, |s|)
    ensures IsDraw(d, |s|)
    ensures forall i :: 0 <= i < |s| ==> Alphabet[d[i]] == s[i]
  {
    seq(|s|, i requires 0 <= i < |s| => IndexOf(s[i]))
  }

  /** The string of `length` characters the picks in `draw` select. Every
      result is a well-formed slug, distinct draws give distinct slugs, and
      every well-formed slug of that length is the result of some draw. */
  function GenerateSlug(length: nat, draw: seq<int>): (s: string)
    requires IsDraw(draw, length)
    ensures IsSlug(s, length)
    ensures DrawOf(s) == draw
  {
    AlphabetLayout();
    var s := seq(length, i requires 0 <= i < length => Alphabet[draw[i]]);
    assert forall i :: 0 <= i < length ==> IndexOf(s[i]) == draw[i];
    s
  }

  /** Every well-formed slug can be generated: the draw read back from it
      regenerates it. */
  lemma GenerateSlugOnto(s: string, length: nat)
    requires IsSlug(s, length)
    ensures GenerateSlug(length, DrawOf(s)) == s
  {
  }

  /** Generation is one-to-one on draws. */
  lemma GenerateSlugInjective(length: nat, d1: seq<int>, d2: seq<int>)
    requires IsDraw(d1, length) && IsDraw(d2, length)
    requires GenerateSlug(length, d1) == GenerateSlug(length, d2)
    ensures d1 == d2
  {
  }
}
