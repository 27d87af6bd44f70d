/** Whitespace trimming as done by Go's strings.TrimSpace: find the first
    non-space character from the front, then the last one from the back, and
    keep the slice between them untouched. */
module Text {

  /** The characters Go's unicode.IsSpace accepts: the Latin-1 spaces
      ('\t', '\n', '\v', '\f', '\r', ' ', U+0085, U+00A0) and the other
      characters of Unicode's White_Space property. */
  const SpaceChars: set<char> := {' ', '\t', '\n', '\U{000B}', '\U{000C}', '\r', '\U{0085}', '\U{00A0}', '\U{1680}',
    '\U{2000}', '\U{2001}', '\U{2002}', '\U{2003}', '\U{2004}', '\U{2005}', '\U{2006}', '\U{2007}', '\U{2008}', '\U{2009}', '\U{200A}',
    '\U{2028}', '\U{2029}', '\U{202F}', '\U{205F}', '\U{3000}'}
  /** White space as TrimSpace sees it. Below U+0100 it is exactly the
      eight Latin-1 spaces that unicode.IsSpace checks first. */
  predicate IsSpace(c: char): (b: bool)
    ensures c < '\U{0100}' ==>
      (b <==> c in {'\t', '\n', '\U{000B}', '\U{000C}', '\r', ' ', '\U{0085}', '\U{00A0}'})
  {
    c in SpaceChars
  }

  /** Every character of `w` is white space (true of the empty string). */
  predicate AllSpace(w: string) {
    forall i :: 0 <= i < |w| ==> IsSpace(w[i])
  }

  /** A string that neither starts nor ends with white space. */
  predicate Trimmed(s: string) {
    s == [] || (!IsSpace(s[0]) && !IsSpace(s[|s| - 1]))
  }

  /** The forward scan of TrimSpace: from index i, skip white space. */
  function Start(s: string, i: nat): (k: nat)
    requires i <= |s|
    ensures i <= k <= |s|
    decreases |s| - i
  {
    if i < |s| && IsSpace(s[i]) then Start(s, i + 1) else i
  }

  /** Start finds the first index at or after i that does not hold white
      space, or |s| when there is none. */
  lemma {:induction false} StartSpec(s: string, i: nat)
    requires i <= |s|
    ensures var k := Start(s, i);
      && (forall m :: i <= m < k ==> IsSpace(s[m]))
      && (k == |s| || !IsSpace(s[k]))
    decreases |s| - i
  {
    if i < |s| && IsSpace(s[i]) {
      StartSpec(s, i + 1);
    }
  }

  /** The backward scan of TrimSpace: from index j, step back over white
      space but not below lo. */
  function Stop(s: string, lo: nat, j: nat): (k: nat)
    requires lo <= j <= |s|
    ensures lo <= k <= j
    decreases j
  {
    if lo < j && IsSpace(s[j - 1]) then Stop(s, lo, j - 1) else j
  }

  /** Stop finds the smallest k with lo <= k <= j such that s[k..j] is all
      white space: the end of the text once the white space before j is
      dropped. */
  lemma {:induction false} StopSpec(s: string, lo: nat, j: nat)
    requires lo <= j <= |s|
    ensures var k := Stop(s, lo, j);
      && (forall m :: k <= m < j ==> IsSpace(s[m]))
      && (k == lo || !IsSpace(s[k - 1]))
    decreases j
  {
    if lo < j && IsSpace(s[j - 1]) {
      StopSpec(s, lo, j - 1);
    }
  }

  /** strings.TrimSpace: the slice between the leading and the trailing
      white space. */
  function Trim(s: string): (r: string)
    ensures |r| <= |s|
  {
    var a := Start(s, 0);
    s[a..Stop(s, a, |s|)]
  }

  /** What Trim keeps and what it cuts: the result neither starts nor ends
      with white space, everything cut off is white space, and what is kept
      is a contiguous, untouched slice of `s`, so white space inside it
      survives. */
  lemma TrimSpec(s: string)
    ensures Trimmed(Trim(s))
    ensures var r, a := Trim(s), Start(s, 0);
      && a + |r| <= |s| && r == s[a..a + |r|]
      && AllSpace(s[..a]) && AllSpace(s[a + |r|..])
  {
    var a := Start(s, 0);
    var b := Stop(s, a, |s|);
    StartSpec(s, 0);
    StopSpec(s, a, |s|);
    assert forall m :: 0 <= m < a ==> s[..a][m] == s[m];
    assert forall m :: 0 <= m < |s| - b ==> s[b..][m] == s[b + m];
  }

  /** The forward scan is determined by its contract: any index that is
      preceded (from i on) by white space only and sits on non-space text or
      at the end is the one Start finds. */
  lemma {:induction false} StartUnique(s: string, i: nat, k: nat)
    requires i <= k <= |s|
    requires forall m :: i <= m < k ==> IsSpace(s[m])
    requires k == |s| || !IsSpace(s[k])
    ensures Start(s, i) == k
    decreases |s| - i
  {
    if i < k {
      StartUnique(s, i + 1, k);
    }
  }

  /** The backward scan is determined by its contract in the same way. */
  lemma {:induction false} StopUnique(s: string, lo: nat, j: nat, k: nat)
    requires lo <= k <= j <= |s|
    requires forall m :: k <= m < j ==> IsSpace(s[m])
    requires k == lo || !IsSpace(s[k - 1])
    ensures Stop(s, lo, j) == k
    decreases j
  {
    if k < j {
      StopUnique(s, lo, j - 1, k);
    }
  }

  /** The converse of Trim's contract: whatever white space surrounds a
      string that is already trimmed, Trim recovers exactly that string. */
  lemma TrimOfSurrounded(lead: string, x: string, trail: string)
    requires AllSpace(lead) && AllSpace(trail) && Trimmed(x)
    ensures Trim(lead + x + trail) == x
  {
    var s := lead + x + trail;
    var a, b := |lead|, |lead| + |x|;
    assert forall m :: 0 <= m < a ==> s[m] == lead[m];
    assert forall m :: b <= m < |s| ==> s[m] == trail[m - b];
    if x == [] {
      StartUnique(s, 0, |s|);
      StopUnique(s, |s|, |s|, |s|);
    } else {
      assert s[a] == x[0] && s[b - 1] == x[|x| - 1];
      StartUnique(s, 0, a);
      StopUnique(s, a, |s|, b);
      assert s[a..b] == x;
    }
  }

  /** Trimming twice is trimming once. */
  lemma TrimIdempotent(s: string)
    ensures Trim(Trim(s)) == Trim(s)
  {
    var t := Trim(s);
    TrimSpec(s);
    assert [] + t + [] == t;
    TrimOfSurrounded([], t, []);
  }

  /** Extra white space around a string does not change its trimmed form:
      a guess typed as "  4  \n" counts the same as "4". */
  lemma TrimIgnoresSurroundingSpace(lead: string, x: string, trail: string)
    requires AllSpace(lead) && AllSpace(trail)
    ensures Trim(lead + x + trail) == Trim(x)
  {
    var t := Trim(x);
    var a := Start(x, 0);
    var before, after := x[..a], x[a + |t|..];
    TrimSpec(x);
    assert x == before + t + after;
    assert lead + x + trail == (lead + before) + t + (after + trail);
    TrimOfSurrounded(lead + before, t, after + trail);
  }

  /** Lines as ReadString returns them, trailing '\n' included, trim to the
      typed answer. */
  lemma TrimLineExamples()
    ensures Trim("4\n") == "4" && Trim("  4  \n") == "4"
    ensures Trim("Paris\n") == "Paris" && Trim("paris\n") == "paris"
  {
    assert [] + "4" + "\n" == "4\n";
    TrimOfSurrounded([], "4", "\n");
    assert "  " + "4" + "  \n" == "  4  \n";
    TrimOfSurrounded("  ", "4", "  \n");
    assert [] + "Paris" + "\n" == "Paris\n";
    TrimOfSurrounded([], "Paris", "\n");
    assert [] + "paris" + "\n" == "paris\n";
    TrimOfSurrounded([], "paris", "\n");
  }

  /** CSV fields with white space around them trim to their text. */
  lemma TrimFieldExamples()
    ensures Trim(" 2+2 ") == "2+2" && Trim(" 4 ") == "4"
  {
    assert " " + "2+2" + " " == " 2+2 ";
    TrimOfSurrounded(" ", "2+2", " ");
    assert " " + "4" + " " == " 4 ";
    TrimOfSurrounded(" ", "4", " ");
  }
}
