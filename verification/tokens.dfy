/** First_element and the loop that drains an input line with it: the line
    is cut at its first comma, the text before the comma is the next element
    and the text after it is what the loop continues with. */
module Tokens {

  /** `csstring.find(",")`: the position of the first comma, or |s| standing
      for `npos` when there is none. */
  function FindComma(s: string): (i: nat)
    ensures i <= |s|
    ensures forall j :: 0 <= j < i ==> s[j] != ','
    ensures i < |s| ==> s[i] == ','
  {
    if s == [] || s[0] == ',' then 0 else 1 + FindComma(s[1..])
  }

  /** First_element without the conversion to int: the element's text and the
      string left behind. */
  function FirstElement(s: string): (r: (string, string))
    ensures ',' !in r.0
    ensures ',' in s ==> s == r.0 + "," + r.1
    ensures ',' !in s ==> r.0 == s && r.1 == ""
  {
    var i := FindComma(s);
    if i == |s| then (s, "") else (s[..i], s[i + 1..])
  }

  /** The element texts in the order the loop `while (line != "")` takes
      them, one call of First_element each. */
  function SplitLine(line: string): (ts: seq<string>)
    ensures |ts| <= |line|
    ensures forall k :: 0 <= k < |ts| ==> ',' !in ts[k]
    decreases |line|
  {
    if line == "" then []
    else
      var (x, rest) := FirstElement(line);
      [x] + SplitLine(rest)
  }

  /** Elements written one after another, separated by commas. */
  function Join(ts: seq<string>): string {
    if ts == [] then ""
    else if |ts| == 1 then ts[0]
    else ts[0] + "," + Join(ts[1..])
  }

  /** Cutting at the first comma is the only way to split around a comma
      with no comma in front. */
  lemma FirstCommaUnique(x: string, rest: string)
    requires ',' !in x
    ensures FirstElement(x + "," + rest) == (x, rest)
  {
    var s := x + "," + rest;
    assert s[|x|] == ',';
    var i := FindComma(s);
    assert forall j :: 0 <= j < |x| ==> s[j] == x[j];
    assert i == |x|;
    assert s[..i] == x;
    assert s[i + 1..] == rest;
  }

  /** Reading the elements back and writing them with commas restores a line
      that does not end in a comma. */
  lemma {:induction false} JoinSplitLine(line: string)
    requires line == "" || line[|line| - 1] != ','
    ensures Join(SplitLine(line)) == line
    decreases |line|
  {
    if line != "" {
      var (x, rest) := FirstElement(line);
      if ',' in line {
        assert line == x + "," + rest;
        assert rest != "" by {
          assert line[|line| - 1] == (x + "," + rest)[|line| - 1];
        }
        assert rest[|rest| - 1] == line[|line| - 1];
        JoinSplitLine(rest);
        assert SplitLine(rest) != [];
      }
    }
  }

  /** Writing comma-free elements with commas and cutting the line again gives
      them back, provided the last one is not empty. */
  lemma {:induction false} SplitLineJoin(ts: seq<string>)
    requires forall k :: 0 <= k < |ts| ==> ',' !in ts[k]
    requires ts == [] || ts[|ts| - 1] != ""
    ensures SplitLine(Join(ts)) == ts
  {
    if |ts| == 1 {
      assert SplitLine(ts[0]) == [ts[0]] + SplitLine("");
    } else if |ts| > 1 {
      var tail := ts[1..];
      FirstCommaUnique(ts[0], Join(tail));
      SplitLineJoin(tail);
      JoinNonEmpty(tail);
    }
  }

  lemma {:induction false} JoinNonEmpty(ts: seq<string>)
    requires ts != [] && ts[|ts| - 1] != ""
    ensures Join(ts) != ""
  {
    if |ts| > 1 {
      JoinNonEmpty(ts[1..]);
    }
  }
}
