/** C string operations shared by the text parsers, over sequences of characters.
    One `char` stands for one byte of the source's `char` arrays. */
module Text {

  datatype Option<+T> = None | Some(value: T)

  const NUL: char := '\0'
  const LF: char := '\n'
  const CR: char := '\r'

  /** Number of leading characters of `s` outside `stops` (strcspn). */
  function Span(s: string, stops: set<char>): (n: nat)
    ensures n <= |s|
    ensures forall i :: 0 <= i < n ==> s[i] !in stops
    ensures n < |s| ==> s[n] in stops
  {
    if s == "" || s[0] in stops then 0 else 1 + Span(s[1..], stops)
  }

  /** Number of leading characters of `s` inside `members` (strspn). */
  function Skip(s: string, members: set<char>): (n: nat)
    ensures n <= |s|
    ensures forall i :: 0 <= i < n ==> s[i] in members
    ensures n < |s| ==> s[n] !in members
  {
    if s == "" || s[0] !in members then 0 else 1 + Skip(s[1..], members)
  }

  /** Any index with the two defining facts of `Span` is `Span`. */
  lemma SpanUnique(s: string, stops: set<char>, n: nat)
    requires n <= |s|
    requires forall i :: 0 <= i < n ==> s[i] !in stops
    requires n < |s| ==> s[n] in stops
    ensures Span(s, stops) == n
  {
  }

  /** Any index with the two defining facts of `Skip` is `Skip`. */
  lemma SkipUnique(s: string, members: set<char>, n: nat)
    requires n <= |s|
    requires forall i :: 0 <= i < n ==> s[i] in members
    requires n < |s| ==> s[n] !in members
    ensures Skip(s, members) == n
  {
  }

  /** One strtok_r step: the first token of `s` and what the saved pointer then points at. */
  function Token(s: string, delims: set<char>): (t: Option<(string, string)>)
    ensures t.Some? ==> t.value.0 != "" && forall c :: c in t.value.0 ==> c !in delims
    ensures t.None? ==> forall c :: c in s ==> c in delims
  {
    var i := Skip(s, delims);
    if i == |s| then None
    else
      var n := Span(s[i..], delims);
      var rest := if i + n == |s| then "" else s[i + n + 1..];
      Some((s[i..i + n], rest))
  }

  /** What a scan over leading delimiters, then over the token, has found. */
  lemma TokenFound(s: string, delims: set<char>, b: nat, e: nat)
    requires b < e <= |s|
    requires forall i :: 0 <= i < b ==> s[i] in delims
    requires forall i :: b <= i < e ==> s[i] !in delims
    requires e < |s| ==> s[e] in delims
    ensures Token(s, delims) == Some((s[b..e], if e == |s| then "" else s[e + 1..]))
  {
    hide Skip, Span;
    SkipUnique(s, delims, b);
    SpanUnique(s[b..], delims, e - b);
  }

  lemma NoTokenFound(s: string, delims: set<char>)
    requires forall i :: 0 <= i < |s| ==> s[i] in delims
    ensures Token(s, delims).None?
  {
    SkipUnique(s, delims, |s|);
  }

  /** ASCII lower case, as strcasecmp compares. */
  function Lower(c: char): char {
    if 'A' <= c <= 'Z' then ((c as int) - ('A' as int) + ('a' as int)) as char else c
  }

  predicate EqualsIgnoringCase(a: string, b: string) {
    |a| == |b| && forall i :: 0 <= i < |a| ==> Lower(a[i]) == Lower(b[i])
  }

  /** Concatenation of a sequence of strings. */
  function Concat(parts: seq<string>): string {
    if parts == [] then "" else parts[0] + Concat(parts[1..])
  }

  lemma ConcatSnoc(parts: seq<string>, last: string)
    ensures Concat(parts + [last]) == Concat(parts) + last
  {
    if parts == [] {
      assert Concat([last]) == last + Concat([]) == last;
    } else {
      ConcatSnoc(parts[1..], last);
      assert (parts + [last])[1..] == parts[1..] + [last];
    }
  }
}
