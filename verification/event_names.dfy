/** Deriving a DOM event name from a parameter name: `getEventName`, which replaces
    the first match of the unanchored, non-global regular expression `/on./` by the
    lower-cased matched character, and the `startsWith("on")` test. */
module EventNames {

  /** The characters the regular-expression `.` does not match (no `s` flag): the
      ECMAScript line terminators. */
  predicate IsLineTerminator(c: char) {
    c == '\n' || c == '\r' || c == '\U{2028}' || c == '\U{2029}'
  }

  /** `String.prototype.toLowerCase` on one character, for ASCII letters; every
      other character is left as it is. */
  function Lower(c: char): char {
    if 'A' <= c <= 'Z' then (c as int + 32) as char else c
  }

  /** `paramName.startsWith("on")`. */
  predicate IsOnName(name: string) {
    |name| >= 2 && name[0] == 'o' && name[1] == 'n'
  }

  /** `/on./` matches `name` at position `i`. */
  predicate MatchesAt(name: string, i: nat) {
    i + 2 < |name| && name[i] == 'o' && name[i + 1] == 'n' && !IsLineTerminator(name[i + 2])
  }

  predicate HasMatch(name: string) {
    exists i: nat :: i < |name| && MatchesAt(name, i)
  }

  /** `i` is the position a non-global regular-expression search reports: the leftmost
      position at which `/on./` matches. */
  predicate FirstMatchAt(name: string, i: nat) {
    MatchesAt(name, i) && forall j: nat :: j < i ==> !MatchesAt(name, j)
  }

  /** `getEventName`, as the scan a regular-expression engine performs: try each start
      position from the left and rewrite the first match only. */
  function EventName(name: string): (r: string)
    ensures !HasMatch(name) ==> r == name
    ensures forall i: nat :: FirstMatchAt(name, i) ==> r == name[..i] + [Lower(name[i + 2])] + name[i + 3..]
    decreases |name|
  {
    if |name| < 3 then name
    else if MatchesAt(name, 0) then [Lower(name[2])] + name[3..]
    else
      var rest := EventName(name[1..]);
      FirstMatchBehindHead(name, rest);
      [name[0]] + rest
  }

  /** Matching at position `i + 1` of a string is matching at `i` of its tail. */
  lemma ShiftedMatches(name: string)
    requires |name| > 0
    ensures forall i: nat :: MatchesAt(name, i + 1) == MatchesAt(name[1..], i)
  {
  }

  /** When `/on./` does not match at the head, the first match of a string is the first
      match of its tail moved one place right, and rewriting commutes with the head. */
  lemma FirstMatchBehindHead(name: string, rest: string)
    requires |name| >= 3 && !MatchesAt(name, 0)
    requires !HasMatch(name[1..]) ==> rest == name[1..]
    requires forall i: nat :: FirstMatchAt(name[1..], i) ==> rest == name[1..][..i] + [Lower(name[1..][i + 2])] + name[1..][i + 3..]
    ensures !HasMatch(name) ==> [name[0]] + rest == name
    ensures forall i: nat :: FirstMatchAt(name, i) ==> [name[0]] + rest == name[..i] + [Lower(name[i + 2])] + name[i + 3..]
  {
    ShiftedMatches(name);
    if !HasMatch(name) {
      assert !HasMatch(name[1..]) by {
        forall i: nat | i < |name[1..]|
          ensures !MatchesAt(name[1..], i)
        {
          assert !MatchesAt(name, i + 1);
        }
      }
      assert [name[0]] + name[1..] == name;
    }
    forall i: nat | FirstMatchAt(name, i)
      ensures [name[0]] + rest == name[..i] + [Lower(name[i + 2])] + name[i + 3..]
    {
      assert i >= 1;
      assert FirstMatchAt(name[1..], i - 1) by {
        forall j: nat | j < i - 1
          ensures !MatchesAt(name[1..], j)
        {
          assert !MatchesAt(name, j + 1);
        }
      }
      assert name[1..][..i - 1] == name[1..i];
      assert name[1..][i + 2..] == name[i + 3..];
      assert [name[0]] + name[1..i] == name[..i];
    }
  }

  /** Some match exists exactly when a leftmost one does. */
  lemma {:induction false} LeftmostMatchExists(name: string, i: nat)
    requires MatchesAt(name, i)
    ensures exists j: nat :: FirstMatchAt(name, j)
    decreases i
  {
    if !FirstMatchAt(name, i) {
      var j: nat :| j < i && MatchesAt(name, j);
      LeftmostMatchExists(name, j);
    }
  }

  /** The name changes exactly when `/on./` matches somewhere, and then it loses exactly
      the two characters "on". */
  lemma EventNameChangesIffMatch(name: string)
    ensures EventName(name) == name <==> !HasMatch(name)
    ensures HasMatch(name) ==> |EventName(name)| == |name| - 2
  {
    if HasMatch(name) {
      var i: nat :| i < |name| && MatchesAt(name, i);
      LeftmostMatchExists(name, i);
      var j: nat :| FirstMatchAt(name, j);
      assert |EventName(name)| == |name| - 2;
    }
  }

  /** The naming convention: `"on" + c + rest` is the event `lower(c) + rest` whenever
      `.` matches `c`. */
  lemma EventNameOfOnPrefix(c: char, rest: string)
    requires !IsLineTerminator(c)
    ensures EventName("on" + [c] + rest) == [Lower(c)] + rest
  {
    assert FirstMatchAt("on" + [c] + rest, 0);
    assert ("on" + [c] + rest)[3..] == rest;
  }

  /** The convention's own examples. */
  lemma EventNameExamples()
    ensures EventName("onClick") == "click"
    ensures EventName("onAB") == "aB"
    ensures EventName("onx") == "x"
  {
    assert "onClick" == "on" + ['C'] + "lick";
    EventNameOfOnPrefix('C', "lick");
    assert "onAB" == "on" + ['A'] + "B";
    EventNameOfOnPrefix('A', "B");
    assert "onx" == "on" + ['x'] + "";
    EventNameOfOnPrefix('x', "");
  }

  /** The regular expression is not anchored: an "on" inside the name is rewritten too. */
  lemma EventNameInsideExample()
    ensures EventName("buttonText") == "butttext"
  {
    var b := "buttonText";
    assert !MatchesAt(b, 0) && !MatchesAt(b, 1) && !MatchesAt(b, 2) && !MatchesAt(b, 3);
    assert FirstMatchAt(b, 4);
    assert b[..4] == "butt" && Lower(b[6]) == 't' && b[7..] == "ext";
    assert "butt" + ['t'] + "ext" == "butttext";
  }

  /** A line terminator after a leading "on" sends the search further right. */
  lemma EventNameTerminatorExample()
    ensures EventName("on\nonX") == "on\nx"
  {
    var t := "on\nonX";
    assert FirstMatchAt(t, 3);
    assert EventName(t) == t[..3] + [Lower(t[5])] + t[6..];
    assert t[..3] == "on\n" && Lower(t[5]) == 'x' && t[6..] == "";
  }

  /** A bare "on" has nothing for `.` to match, so it names the event "on". */
  lemma EventNameBareOnExample()
    ensures EventName("on") == "on"
  {
  }
}
