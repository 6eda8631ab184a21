/**
 * The clean-up applied to each line of a field file before it becomes a row:
 * strip whitespace from both ends, then delete every space.
 *
 * The program is written for Python 2, whose byte-string strip() removes the
 * six ASCII whitespace characters: space, tab, line feed, vertical tab, form
 * feed and carriage return.
 */
module FieldFile {

  /** Python 2's whitespace: the ASCII control characters 9 to 13 and the space. */
  predicate IsWhitespace(c: char)
    ensures IsWhitespace(c) <==> 9 <= c as int <= 13 || c as int == 32
  {
    c == ' ' || c == '\t' || c == '\n' || c == '\U{0B}' || c == '\U{0C}' || c == '\r'
  }

  /** How many whitespace characters s starts with. */
  function LeadingWhitespace(s: string): (i: nat)
    ensures i <= |s|
    ensures forall k :: 0 <= k < i ==> IsWhitespace(s[k])
    ensures i == |s| || !IsWhitespace(s[i])
  {
    if s != [] && IsWhitespace(s[0]) then 1 + LeadingWhitespace(s[1..]) else 0
  }

  /** How many whitespace characters s ends with. */
  function TrailingWhitespace(s: string): (j: nat)
    ensures j <= |s|
    ensures forall k :: |s| - j <= k < |s| ==> IsWhitespace(s[k])
    ensures j == |s| || !IsWhitespace(s[|s| - 1 - j])
  {
    if s != [] && IsWhitespace(s[|s| - 1]) then 1 + TrailingWhitespace(s[..|s| - 1]) else 0
  }

  /** s without its leading whitespace. */
  function StripLeading(s: string): (r: string)
    ensures r == [] || !IsWhitespace(r[0])
  {
    s[LeadingWhitespace(s)..]
  }

  /** s without its trailing whitespace. */
  function StripTrailing(s: string): (r: string)
    ensures r == [] || !IsWhitespace(r[|r| - 1])
  {
    s[..|s| - TrailingWhitespace(s)]
  }

  /** Python's str.strip(): s without whitespace at either end. */
  function Strip(s: string): (r: string)
    ensures |r| <= |s|
    ensures r == [] || (!IsWhitespace(r[0]) && !IsWhitespace(r[|r| - 1]))
  {
    StripTrailing(StripLeading(s))
  }

  lemma PrefixOfSuffix(s: string, i: nat, n: nat)
    requires i + n <= |s|
    ensures s[i..][..n] == s[i..i + n]
  {
  }

  lemma WhitespaceEndOfSuffix(s: string, i: nat, t: nat)
    requires i <= |s| && t <= |s| - i
    requires forall k :: |s| - i - t <= k < |s| - i ==> IsWhitespace(s[i..][k])
    ensures forall k :: |s| - t <= k < |s| ==> IsWhitespace(s[k])
  {
    forall k | |s| - t <= k < |s| ensures IsWhitespace(s[k]) {
      assert s[k] == s[i..][k - i];
    }
  }

  /**
   * Strip keeps one contiguous middle part of s, and everything it cuts away on
   * either side is whitespace.
   */
  lemma StripCutsOnlyWhitespace(s: string)
    ensures var i, r := LeadingWhitespace(s), Strip(s);
      i + |r| <= |s| && r == s[i..i + |r|] &&
      (forall k :: 0 <= k < i ==> IsWhitespace(s[k])) &&
      (forall k :: i + |r| <= k < |s| ==> IsWhitespace(s[k]))
  {
    var i := LeadingWhitespace(s);
    var lead := s[i..];
    var t := TrailingWhitespace(lead);
    assert Strip(s) == lead[..|lead| - t];
    PrefixOfSuffix(s, i, |lead| - t);
    WhitespaceEndOfSuffix(s, i, t);
  }

  /**
   * Python's s.replace(' ', ''): s with every space deleted. Every other
   * character is kept as often as s has it; RemoveSpacesAppend shows that the
   * order is kept too.
   */
  function RemoveSpaces(s: string): (r: string)
    ensures |r| <= |s|
    ensures ' ' !in r
    ensures forall c :: c != ' ' ==> multiset(r)[c] == multiset(s)[c]
    ensures ' ' !in s ==> r == s
  {
    if s == [] then []
    else if s[0] == ' ' then assert s == [s[0]] + s[1..]; RemoveSpaces(s[1..])
    else assert s == [s[0]] + s[1..]; [s[0]] + RemoveSpaces(s[1..])
  }

  lemma {:induction false} RemoveSpacesAppend(a: string, b: string)
    ensures RemoveSpaces(a + b) == RemoveSpaces(a) + RemoveSpaces(b)
    decreases |a|
  {
    if a != [] {
      RemoveSpacesAppend(a[1..], b);
      assert (a + b)[1..] == a[1..] + b;
    } else {
      assert a + b == b;
    }
  }

  /** Deleting spaces never disturbs a first or last character that is not a space. */
  lemma RemoveSpacesKeepsEnds(s: string)
    ensures s != [] && s[0] != ' ' && s[|s| - 1] != ' ' ==>
      var r := RemoveSpaces(s); r != [] && r[0] == s[0] && r[|r| - 1] == s[|s| - 1]
  {
    if s == [] || s[0] == ' ' || s[|s| - 1] == ' ' {
      return;
    }
    var init := s[..|s| - 1];
    assert s == init + [s[|s| - 1]];
    RemoveSpacesAppend(init, [s[|s| - 1]]);
    assert RemoveSpaces([s[|s| - 1]]) == [s[|s| - 1]];
  }

  /** One line of the file as the list of its cells. */
  function NormaliseRow(line: string): (cells: string)
    ensures ' ' !in cells
    ensures cells == [] || (!IsWhitespace(cells[0]) && !IsWhitespace(cells[|cells| - 1]))
  {
    var stripped := Strip(line);
    RemoveSpacesKeepsEnds(stripped);
    RemoveSpaces(stripped)
  }

  lemma NoVisibleIn(s: string, c: char)
    requires forall k :: 0 <= k < |s| ==> IsWhitespace(s[k])
    requires !IsWhitespace(c)
    ensures multiset(s)[c] == 0
  {
    assert c !in s;
  }

  /** Every character that is not whitespace is kept, as often as it occurs in the line. */
  lemma NormaliseRowKeepsVisible(line: string, c: char)
    requires !IsWhitespace(c)
    ensures multiset(NormaliseRow(line))[c] == multiset(line)[c]
  {
    var mid := Strip(line);
    var i := LeadingWhitespace(line);
    StripCutsOnlyWhitespace(line);
    var j := i + |mid|;
    assert line == line[..i] + mid + line[j..];
    NoVisibleIn(line[..i], c);
    NoVisibleIn(line[j..], c);
    assert multiset(line) == multiset(line[..i]) + multiset(mid) + multiset(line[j..]);
  }

  /** Normalising an already normalised row changes nothing. */
  lemma NormaliseRowIdempotent(line: string)
    ensures NormaliseRow(NormaliseRow(line)) == NormaliseRow(line)
  {
    var cells := NormaliseRow(line);
    assert LeadingWhitespace(cells) == 0 && StripLeading(cells) == cells;
    assert TrailingWhitespace(cells) == 0 && StripTrailing(cells) == cells;
  }
}
