/** Text normalisation ahead of counting (project.py:62-64): every character
    is lower-cased and kept only when the lowered character is a lower-case
    ASCII letter, a decimal digit, a space or a full stop. */
module Normalization {

  /** The characters of `string.ascii_lowercase + string.digits + ' .'`. */
  predicate IsAllowed(c: char)
  {
    ('a' <= c <= 'z') || ('0' <= c <= '9') || c == ' ' || c == '.'
  }

  /** KELVIN SIGN: the one character besides 'A'..'Z' whose lower-case form
      is an allowed character (it lowers to 'k'). */
  const KelvinSign: char := '\U{212A}'

  /** Python's `str.lower` on one character, as far as the filter can tell:
      'A'..'Z' and the Kelvin sign are mapped to their lower-case letters;
      every other character is returned unchanged, which keeps an allowed
      character allowed and, since no other character lowers into the
      allowed set, a disallowed one disallowed. */
  function Lower(c: char): char
  {
    if 'A' <= c <= 'Z' then (c as int + 32) as char
    else if c == KelvinSign then 'k'
    else c
  }

  /** The normalised text. */
  function Normalize(text: string): (r: string)
    ensures |r| <= |text|
    ensures forall i :: 0 <= i < |r| ==> IsAllowed(r[i])
  {
    if text == [] then []
    else
      var c := Lower(text[0]);
      (if IsAllowed(c) then [c] else []) + Normalize(text[1..])
  }

  /** A character survives normalisation exactly when it is allowed, an
      upper-case ASCII letter or the Kelvin sign; survivors come out lowered. */
  lemma NormalizeOne(c: char)
    ensures |Normalize([c])| <= 1
    ensures Normalize([c]) != [] <==> IsAllowed(c) || 'A' <= c <= 'Z' || c == KelvinSign
    ensures IsAllowed(c) ==> Normalize([c]) == [c]
    ensures 'A' <= c <= 'Z' ==> Normalize([c]) == [(c as int + 32) as char]
    ensures c == KelvinSign ==> Normalize([c]) == ['k']
  {
    assert [c][1..] == [];
  }

  /** Normalisation works character by character, so it distributes over
      concatenation; with `NormalizeOne` this fixes it on every text. */
  lemma {:induction false} NormalizeConcat(a: string, b: string)
    ensures Normalize(a + b) == Normalize(a) + Normalize(b)
  {
    if a == [] {
      assert a + b == b;
    } else {
      assert (a + b)[0] == a[0];
      assert (a + b)[1..] == a[1..] + b;
      NormalizeConcat(a[1..], b);
    }
  }

  /** Text made only of allowed characters is left as it is. */
  lemma {:induction false} NormalizeFixesAllowed(text: string)
    requires forall i :: 0 <= i < |text| ==> IsAllowed(text[i])
    ensures Normalize(text) == text
  {
    if text != [] {
      NormalizeFixesAllowed(text[1..]);
      assert text == [text[0]] + text[1..];
    }
  }

  /** Normalising twice is the same as normalising once. */
  lemma NormalizeIdempotent(text: string)
    ensures Normalize(Normalize(text)) == Normalize(text)
  {
    NormalizeFixesAllowed(Normalize(text));
  }
}
