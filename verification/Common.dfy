/** What several components use: optional values, sequences and names. */
module Common {

  datatype Option<T> = None | Some(value: T)

  function Without<T>(s: seq<T>, i: nat): seq<T>
    requires i < |s|
  {
    s[..i] + s[i + 1..]
  }

  function Lower(c: char): char {
    if 'A' <= c <= 'Z' then c - 'A' + 'a' else c
  }

  /** strcasecmp() == 0 */
  predicate SameName(a: string, b: string) {
    |a| == |b| && forall i | 0 <= i < |a| :: Lower(a[i]) == Lower(b[i])
  }

  /** The capital and the small letters of ASCII are so far apart. */
  const CASE_DISTANCE := 0x20

  predicate IsCapitalOf(c: char, d: char) {
    'A' <= c <= 'Z' && d as int == c as int + CASE_DISTANCE
  }

  /** Names are the same if they differ only in the case of letters. */
  lemma SameNameIff(a: string, b: string)
    ensures SameName(a, b) <==>
              |a| == |b|
              && forall i | 0 <= i < |a| :: a[i] == b[i] || IsCapitalOf(a[i], b[i]) || IsCapitalOf(b[i], a[i])
  {
    if |a| == |b| {
      forall i | 0 <= i < |a|
        ensures Lower(a[i]) == Lower(b[i]) <==> a[i] == b[i] || IsCapitalOf(a[i], b[i]) || IsCapitalOf(b[i], a[i])
      {
        SameLetter(a[i], b[i]);
      }
    }
  }

  lemma SameLetter(c: char, d: char)
    ensures Lower(c) == Lower(d) <==> c == d || IsCapitalOf(c, d) || IsCapitalOf(d, c)
  {
    assert 'A' <= c <= 'Z' ==> Lower(c) as int == c as int + CASE_DISTANCE;
    assert 'A' <= d <= 'Z' ==> Lower(d) as int == d as int + CASE_DISTANCE;
  }
}
