/** strstr, strrchr and the trim macro of tools/cuda-api.c, over strings. */
module CStrings {
  import opened Text

  predicate At(s: string, i: nat, p: string) { i + |p| <= |s| && s[i..i + |p|] == p }

  /** strstr */
  function Find(s: string, p: string): (r: Option<nat>)
    ensures r.Some? ==> At(s, r.value, p) && forall j: nat :: j < r.value ==> !At(s, j, p)
    ensures r.None? ==> forall j: nat :: !At(s, j, p)
  {
    if p <= s then Some(0)
    else if s == "" then None
    else
      var r := Find(s[1..], p);
      assert forall j: nat :: j > 0 && At(s, j, p) ==> At(s[1..], j - 1, p) by { Shift(s, p); }
      if r.None? then None
      else
        assert At(s[1..], r.value, p) && s[1..][r.value..r.value + |p|] == s[r.value + 1..r.value + 1 + |p|];
        Some(r.value + 1)
  }

  lemma Shift(s: string, p: string)
    requires s != ""
    ensures forall j: nat :: j > 0 && At(s, j, p) ==> At(s[1..], j - 1, p)
  {
    forall j: nat | j > 0 && At(s, j, p) ensures At(s[1..], j - 1, p) {
      assert s[1..][j - 1..j - 1 + |p|] == s[j..j + |p|];
    }
  }

  predicate Contains(s: string, p: string) { Find(s, p).Some? }

  lemma IsAt(s: string, j: nat, p: string)
    requires j + |p| <= |s| && s[j..j + |p|] == p
    ensures At(s, j, p)
  {
  }

  /** One differing character rules an occurrence out. */
  lemma NotAt(s: string, j: nat, p: string, m: nat)
    requires m < |p| && (j + m < |s| ==> s[j + m] != p[m])
    ensures !At(s, j, p)
  {
    assert j + |p| <= |s| ==> s[j..j + |p|][m] == s[j + m];
  }

  lemma FindIs(s: string, p: string, i: nat)
    requires At(s, i, p) && forall j: nat :: j < i ==> !At(s, j, p)
    ensures Find(s, p) == Some(i)
  {
    hide Find, At;
  }

  /** An occurrence stays one when the string grows at either end. */
  lemma ContainsWithin(before: string, s: string, after: string, p: string)
    requires Contains(s, p)
    ensures Contains(before + s + after, p)
  {
    hide Find;
    var i := Find(s, p).value;
    var t := before + s + after;
    assert t[|before|..|before| + |s|] == s;
    assert t[|before| + i..|before| + i + |p|] == s[i..i + |p|];
    assert At(t, |before| + i, p);
  }

  /** strrchr */
  function FindLast(s: string, c: char): (r: Option<nat>)
    ensures r.Some? ==> r.value < |s| && s[r.value] == c && c !in s[r.value + 1..]
    ensures r.None? ==> c !in s
  {
    if s == "" then None
    else if s[|s| - 1] == c then Some(|s| - 1)
    else
      var r := FindLast(s[..|s| - 1], c);
      assert s == s[..|s| - 1] + [s[|s| - 1]];
      assert r.Some? ==> s[r.value + 1..] == s[..|s| - 1][r.value + 1..] + [s[|s| - 1]];
      r
  }

  lemma FindLastIs(before: string, c: char, after: string)
    requires c !in after
    ensures FindLast(before + [c] + after, c) == Some(|before|)
  {
    hide FindLast;
    var s := before + [c] + after;
    var r := FindLast(s, c);
    assert s[|before|] == c;
    assert forall i :: 0 <= i < |after| ==> s[|before| + 1 + i] == after[i];
  }

  const WHITE: set<char> := {' ', '\t', CR, LF}

  predicate AllWhite(s: string) { forall i :: 0 <= i < |s| ==> s[i] in WHITE }

  /** Where trim_right stops. */
  function End(s: string): (n: nat)
    ensures n <= |s| && (n > 0 ==> s[n - 1] !in WHITE) && AllWhite(s[n..])
  {
    if s == "" || s[|s| - 1] !in WHITE then |s|
    else
      var n := End(s[..|s| - 1]);
      assert s[n..] == s[..|s| - 1][n..] + [s[|s| - 1]];
      n
  }

  /** What the pointer trim returns shows. */
  function Trimmed(s: string): string { s[Skip(s, WHITE)..][..End(s[Skip(s, WHITE)..])] }

  /** What the pointer given to trim shows afterwards: leading blanks stay, and so does a blank string. */
  function TrimmedInPlace(s: string): string { s[..Skip(s, WHITE)] + Trimmed(s) }

  lemma EndIs(s: string, n: nat)
    requires n <= |s| && (n > 0 ==> s[n - 1] !in WHITE) && AllWhite(s[n..])
    ensures End(s) == n
  {
    hide End;
    var e := End(s);
    assert forall i :: e <= i < |s| ==> s[e..][i - e] == s[i];
    assert forall i :: n <= i < |s| ==> s[n..][i - n] == s[i];
  }

  predicate NoEdgeBlanks(s: string) { s != "" ==> s[0] !in WHITE && s[|s| - 1] !in WHITE }

  lemma TrimPadded(left: string, s: string, right: string)
    requires NoEdgeBlanks(s) && AllWhite(left) && AllWhite(right) && s != ""
    ensures Trimmed(left + s + right) == s && TrimmedInPlace(left + s + right) == left + s
  {
    hide End;
    var t := left + s + right;
    assert forall i :: 0 <= i < |left| ==> t[i] == left[i];
    SkipUnique(t, WHITE, |left|);
    assert t[|left|..] == s + right;
    assert (s + right)[|s|..] == right;
    EndIs(s + right, |s|);
  }

  /** trim leaves exactly the strings without blanks at their ends as they are. */
  lemma TrimmedExactly(s: string)
    ensures Trimmed(s) == s <==> NoEdgeBlanks(s)
  {
    if s != "" {
      var b := Skip(s, WHITE);
      if s[0] !in WHITE && s[|s| - 1] !in WHITE {
        TrimPadded("", s, "");
        assert "" + s + "" == s;
      }
    }
  }

  /** Blank, tab, carriage return and line feed are trimmed at both ends, and nothing else is. */
  lemma TrimmedEdges(s: string)
    ensures var t := Trimmed(s);
      && (t != "" ==> t[0] !in {' ', '\t', '\r', '\n'} && t[|t| - 1] !in {' ', '\t', '\r', '\n'})
      && (s != "" && s[0] !in {' ', '\t', '\r', '\n'} && s[|s| - 1] !in {' ', '\t', '\r', '\n'} ==> t == s)
  {
    TrimmedExactly(s);
    var b := Skip(s, WHITE);
    assert Trimmed(s) != "" ==> s[b..][0] !in WHITE;
  }

  /** trim: trim_left finds where trim_right must stop. Both what the returned pointer and what the given
      pointer show. */
  method Trim(s: string) returns (t: string, inPlace: string)
    ensures t == Trimmed(s) && inPlace == TrimmedInPlace(s)
  {
    hide Trimmed, TrimmedInPlace;
    var begin := 0;
    while begin < |s| && s[begin] in WHITE
      invariant begin <= |s| && forall i :: 0 <= i < begin ==> s[i] in WHITE
    {
      begin := begin + 1;
    }
    var end := |s|;
    while end > begin && s[end - 1] in WHITE
      invariant begin <= end <= |s| && forall i :: end <= i < |s| ==> s[i] in WHITE
    {
      end := end - 1;
    }
    TrimStops(s, begin, end);
    return s[begin..end], s[..end];
  }

  lemma TrimStops(s: string, begin: nat, end: nat)
    requires begin <= end <= |s|
    requires (forall i :: 0 <= i < begin ==> s[i] in WHITE) && (begin < |s| ==> s[begin] !in WHITE)
    requires (forall i :: end <= i < |s| ==> s[i] in WHITE) && (begin < end ==> s[end - 1] !in WHITE)
    ensures s[begin..end] == Trimmed(s) && s[..end] == TrimmedInPlace(s)
  {
    hide Skip, End;
    SkipUnique(s, WHITE, begin);
    EndIs(s[begin..], end - begin);
    assert s[begin..end] == s[begin..][..end - begin];
    assert s[..end] == s[..begin] + s[begin..end];
  }
}
