/** String helpers with the meaning of the Go standard library calls the core uses. */
module Text {

  /** strings.HasPrefix: `s` begins with `prefix` (byte-wise, case-sensitive). */
  predicate HasPrefix(s: string, prefix: string)
  {
    prefix <= s
  }

  /** `needle` occurs somewhere inside `hay`, verbatim. */
  predicate IsInfix(needle: string, hay: string)
  {
    exists i :: 0 <= i <= |hay| && HasPrefix(hay[i..], needle)
  }

  /** A prefix of a prefix is a prefix. */
  lemma PrefixTransitive(s: string, p: string, q: string)
    requires HasPrefix(s, p) && HasPrefix(p, q)
    ensures HasPrefix(s, q)
  {
  }

  function Digit(d: nat): char
    requires d < 10
  {
    "0123456789"[d]
  }

  /** The decimal rendering of `n`, as Go's `%d` prints it. */
  function NatToString(n: nat): (s: string)
    ensures |s| >= 1
  {
    if n < 10 then [Digit(n)] else NatToString(n / 10) + [Digit(n % 10)]
  }

  /** An infix of a part is an infix of the whole. */
  lemma InfixExtended(needle: string, a: string, x: string, b: string)
    requires IsInfix(needle, x)
    ensures IsInfix(needle, a + x + b)
  {
    var i :| 0 <= i <= |x| && HasPrefix(x[i..], needle);
    var hay := a + x + b;
    assert hay[|a| + i..][..|needle|] == x[i..][..|needle|];
    assert HasPrefix(hay[|a| + i..], needle);
  }

  /** An infix of a string stays one when more text follows. */
  lemma InfixExtendedRight(needle: string, x: string, b: string)
    requires IsInfix(needle, x)
    ensures IsInfix(needle, x + b)
  {
    var i :| 0 <= i <= |x| && HasPrefix(x[i..], needle);
    assert (x + b)[i..][..|needle|] == x[i..][..|needle|];
    assert HasPrefix((x + b)[i..], needle);
  }

  lemma InfixAtStart(needle: string, b: string)
    ensures IsInfix(needle, needle + b)
  {
    assert (needle + b)[0..] == needle + b;
    assert (needle + b)[..|needle|] == needle;
  }

  lemma InfixAtEnd(a: string, needle: string)
    ensures IsInfix(needle, a + needle)
  {
    assert (a + needle)[|a|..] == needle;
  }
}
