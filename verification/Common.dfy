/** Datatypes and functions shared by the other modules. */
module Common {

  datatype Option<+T> = None | Some(value: T)

  datatype Result<+T, +E> = Ok(value: T) | Err(error: E)

  function Max(a: int, b: int): int {
    if a > b then a else b
  }

  function Min(a: int, b: int): int {
    if a < b then a else b
  }

  const MICROS_PER_SECOND: int := 1_000_000

  // Python's int() of a duration in seconds truncates toward zero.
  function WholeSeconds(micros: int): int {
    if micros >= 0 then micros / MICROS_PER_SECOND else -(-micros / MICROS_PER_SECOND)
  }

  lemma WholeSecondsExactly(micros: int)
    ensures micros >= 0 ==> WholeSeconds(micros) * 1_000_000 <= micros < (WholeSeconds(micros) + 1) * 1_000_000
    ensures micros < 0 ==> (WholeSeconds(micros) - 1) * 1_000_000 < micros <= WholeSeconds(micros) * 1_000_000
    ensures micros < 0 ==> WholeSeconds(micros) == -WholeSeconds(-micros)
  {
  }

  function UpperChar(c: char): char {
    if 'a' <= c <= 'z' then c - 'a' + 'A' else c
  }

  // Equal, or the same ASCII letter in the other case.
  predicate SameLetter(c: char, d: char) {
    || c == d
    || ('a' <= c <= 'z' && d as int == c as int - 32)
    || ('a' <= d <= 'z' && c as int == d as int - 32)
  }

  predicate SameUpToCase(s: string, t: string) {
    |s| == |t| && forall i :: 0 <= i < |s| ==> SameLetter(s[i], t[i])
  }

  function Upper(s: string): string {
    seq(|s|, i requires 0 <= i < |s| => UpperChar(s[i]))
  }

  lemma UpperExactly(s: string, name: string)
    requires Upper(name) == name
    ensures Upper(s) == name <==> SameUpToCase(s, name)
  {
    if |s| == |name| {
      forall i | 0 <= i < |s|
        ensures Upper(s)[i] == name[i] <==> SameLetter(s[i], name[i])
      {
        assert UpperChar(name[i]) == Upper(name)[i] == name[i];
      }
    }
  }

  // ASCII white space, as str.split and str.strip see it.
  predicate IsBlank(c: char) {
    c == ' ' || 9 <= c as int <= 13 || 28 <= c as int <= 31
  }

  function Members<T(==)>(s: seq<T>): set<T> {
    set x | x in s
  }
}
