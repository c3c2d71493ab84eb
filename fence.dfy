/** Extracting the JSON body from a detector reply that wraps it in a Markdown
    code fence (drawing_ingestor.py, inside `call`). */
module Fence {
  import opened Strings

  const Ticks: string := "```"
  const JsonTicks: string := "```json"

  /** Where the body begins: just after the first "```json", otherwise just after
      the first "```", otherwise at 0. */
  function BodyStart(content: string): (start: nat)
    ensures start <= |content|
  {
    if Contains(content, JsonTicks) then Find(content, JsonTicks) + 7
    else if Contains(content, Ticks) then Find(content, Ticks) + 3
    else 0
  }

  /** An occurrence in a suffix of s is an occurrence in s. */
  lemma OccursInSuffix(s: string, p: string, start: nat, j: int)
    requires start <= |s| && OccursAt(s[start..], p, j)
    ensures OccursAt(s, p, start + j)
  {
    assert s[start + j..start + j + |p|] == s[start..][j..j + |p|];
  }

  /** Where the body ends: at the last "```" of the whole reply when one occurs at
      or after start, otherwise at the end of the reply. */
  function BodyEnd(content: string, start: nat): (end: nat)
    requires start <= |content|
    ensures start <= end <= |content|
  {
    if Contains(content[start..], Ticks) then
      OccursInSuffix(content, Ticks, start, Find(content[start..], Ticks));
      RFind(content, Ticks)
    else |content|
  }

  /** The reply text the ingestor hands to json.loads. */
  function StripFence(content: string): (r: string)
    ensures !StartsWith(content, Ticks) ==> r == content
  {
    if StartsWith(content, Ticks) then
      var start := BodyStart(content);
      Strip(content[start..BodyEnd(content, start)])
    else content
  }

  /** Where the body starts, stated by occurrences: after the first "```json",
      or 3 characters in when there is none (the reply opens with "```"). */
  lemma BodyStartSpec(content: string)
    requires StartsWith(content, Ticks)
    ensures var start := BodyStart(content);
      && ((exists i :: OccursAt(content, JsonTicks, i)) ==>
            7 <= start && OccursAt(content, JsonTicks, start - 7)
            && forall i :: i < start - 7 ==> !OccursAt(content, JsonTicks, i))
      && ((forall i :: !OccursAt(content, JsonTicks, i)) ==> start == 3)
  {
    assert OccursAt(content, Ticks, 0);
  }

  /** Where the body ends, stated by occurrences: at the last "```" when one
      occurs at or after start, otherwise at the end of the text. */
  lemma BodyEndSpec(content: string, start: nat)
    requires start <= |content|
    ensures var end := BodyEnd(content, start);
      && ((exists j :: start <= j && OccursAt(content, Ticks, j)) ==>
            OccursAt(content, Ticks, end) && forall j :: j > end ==> !OccursAt(content, Ticks, j))
      && ((forall j :: start <= j ==> !OccursAt(content, Ticks, j)) ==> end == |content|)
  {
    if exists j :: start <= j && OccursAt(content, Ticks, j) {
      var j :| start <= j && OccursAt(content, Ticks, j);
      assert content[start..][j - start..j - start + 3] == content[j..j + 3];
      assert OccursAt(content[start..], Ticks, j - start);
    } else if Contains(content[start..], Ticks) {
      OccursInSuffix(content, Ticks, start, Find(content[start..], Ticks));
      assert false;
    }
  }

  /** A reply fenced as "```json" + body + "```" yields body, stripped. */
  lemma JsonFenced(body: string)
    ensures StripFence(JsonTicks + body + Ticks) == Strip(body)
  {
    var content := JsonTicks + body + Ticks;
    assert content[..3] == Ticks;
    assert OccursAt(content, JsonTicks, 0);
    var n := |content|;
    assert content[n - 3..] == Ticks;
    assert OccursAt(content, Ticks, n - 3);
    assert OccursAt(content[7..], Ticks, n - 10) by {
      assert content[7..][n - 10..n - 7] == content[n - 3..];
    }
    assert RFind(content, Ticks) == n - 3;
    assert content[7..n - 3] == body;
  }

  /** A reply fenced as "```" + body + "```", with no "```json" in it, yields
      body, stripped. */
  lemma PlainFenced(body: string)
    requires forall i :: !OccursAt(Ticks + body + Ticks, JsonTicks, i)
    ensures StripFence(Ticks + body + Ticks) == Strip(body)
  {
    var content := Ticks + body + Ticks;
    assert content[..3] == Ticks;
    assert OccursAt(content, Ticks, 0);
    var n := |content|;
    assert content[n - 3..] == Ticks;
    assert OccursAt(content, Ticks, n - 3);
    assert OccursAt(content[3..], Ticks, n - 6) by {
      assert content[3..][n - 6..n - 3] == content[n - 3..];
    }
    assert RFind(content, Ticks) == n - 3;
    assert content[3..n - 3] == body;
  }
}
