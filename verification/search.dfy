/** Character search over strings with the conventions of Python's `str.find`. */
module Search {

  /** The first position at or after `i` where `c` occurs in `s`, or -1 when
      `c` does not occur in `s[i..]`. */
  function IndexFrom(s: string, c: char, i: nat): (r: int)
    requires i <= |s|
    ensures r == -1 <==> forall j :: i <= j < |s| ==> s[j] != c
    ensures r != -1 ==> i <= r < |s| && s[r] == c && forall j :: i <= j < r ==> s[j] != c
    decreases |s| - i
  {
    if i == |s| then -1
    else if s[i] == c then i
    else IndexFrom(s, c, i + 1)
  }

  /** Where a search that was asked to begin at `start` actually begins: a
      negative start counts back from the end of the string and is clamped
      at zero, as a Python slice start is. */
  function SearchStart(s: string, start: int): nat
  {
    if start >= 0 then start
    else if |s| + start >= 0 then |s| + start
    else 0
  }

  /** `s.find(c, start)`: the index of the first `c` at or after the
      (normalised) start, or -1 when there is none. */
  function Find(s: string, c: char, start: int): (r: int)
    ensures r == -1 || (SearchStart(s, start) <= r < |s| && s[r] == c)
    ensures r != -1 ==> forall j :: SearchStart(s, start) <= j < r ==> s[j] != c
    ensures r == -1 <==> forall j :: SearchStart(s, start) <= j < |s| ==> s[j] != c
  {
    var k := SearchStart(s, start);
    if k > |s| then -1 else IndexFrom(s, c, k)
  }

  /** With a start of -1 the search still looks at the last character, so
      a `find` that missed cannot be used as a start position unguarded:
      in a buffer with no `{` that ends in `}`, no `{` is found, yet the
      `}` is found from -1. */
  lemma MissedStartStillFinds(buf: string)
    requires '{' !in buf && |buf| > 0 && buf[|buf| - 1] == '}'
    ensures Find(buf, '{', 0) == -1
    ensures Find(buf, '}', Find(buf, '{', 0)) == |buf| - 1
  {
  }
}
