/**
 * The Scans tab's item labels, `Scan at <timestamp> on <frequency> Hz`, and
 * how a label's timestamp is read back with the regular expression
 * `Scan at (.+?) on` (Python's `re.search`, group 1).
 */
module Labels {
  import opened Wrappers
  import opened Text

  const Prefix: string := "Scan at "
  const Marker: string := " on"

  /** The label of a stored scan. */
  function ScanLabel(timestamp: string, frequency: string): (r: string)
    ensures StartsAt(r, 0, Prefix + timestamp + Marker)
    ensures EndsWith(r, frequency + " Hz")
  {
    var r := Prefix + timestamp + " on " + frequency + " Hz";
    assert r == (Prefix + timestamp + Marker) + (" " + frequency + " Hz");
    assert r == (Prefix + timestamp + " on ") + (frequency + " Hz");
    r
  }

  /**
   * The lazy group `(.+?)` starting at `g`, having consumed `k` characters:
   * `.` matches any character but a line break, and the group stops at the
   * first length at which the text ` on` follows. `None` when no length of
   * `k` or more, within one line, is followed by ` on`.
   */
  function LazyGroup(s: string, g: nat, k: nat): (r: Option<string>)
    requires k >= 1 && g + k - 1 <= |s| && '\n' !in s[g..g + k - 1]
    decreases |s| - k
    ensures r.Some? ==> g + |r.value| <= |s| && r.value == s[g..g + |r.value|]
    ensures r.Some? ==> k <= |r.value| && StartsAt(s, g + |r.value|, Marker)
    ensures r.Some? ==> '\n' !in r.value
    ensures r.Some? ==> forall j :: g + k <= j < g + |r.value| ==> !StartsAt(s, j, Marker)
    ensures r.None? ==> forall j :: g + k <= j <= |s| && '\n' !in s[g..j] ==> !StartsAt(s, j, Marker)
  {
    if g + k > |s| || s[g + k - 1] == '\n' then None
    else
      assert s[g..g + k] == s[g..g + k - 1] + [s[g + k - 1]];
      if StartsAt(s, g + k, Marker) then Some(s[g..g + k])
      else LazyGroup(s, g, k + 1)
  }

  /** The match of the pattern at position `i`, if the pattern matches there. */
  function MatchAt(s: string, i: nat): (r: Option<string>)
    ensures r.Some? ==> r.value != "" && StartsAt(s, i, Prefix + r.value + Marker)
    ensures r.Some? ==> '\n' !in r.value
  {
    if StartsAt(s, i, Prefix) then
      var r := LazyGroup(s, i + |Prefix|, 1);
      if r.Some? then
        StartsAtConcat(s, i, Prefix, r.value);
        StartsAtConcat(s, i, Prefix + r.value, Marker);
        r
      else None
    else None
  }

  /** Two texts that occur one right after the other occur together. */
  lemma StartsAtConcat(s: string, i: nat, p: string, q: string)
    requires StartsAt(s, i, p) && StartsAt(s, i + |p|, q)
    ensures StartsAt(s, i, p + q)
  {
    assert s[i..i + |p + q|] == s[i..i + |p|] + s[i + |p|..i + |p| + |q|];
  }

  /** `re.search`: the match at the leftmost position where there is one. */
  function SearchFrom(s: string, i: nat): (r: Option<string>)
    decreases |s| - i
    ensures r.Some? ==> r.value != "" && '\n' !in r.value && Contains(s, Prefix + r.value + Marker)
    ensures r.Some? ==> exists j :: i <= j <= |s| && MatchAt(s, j) == r && NoMatchIn(s, i, j)
    ensures r.None? ==> NoMatchIn(s, i, |s| + 1)
  {
    var m := MatchAt(s, i);
    if m.Some? then m
    else if i >= |s| then None
    else SearchFrom(s, i + 1)
  }

  /** The pattern matches at no position from `i` up to, not including, `j`. */
  predicate NoMatchIn(s: string, i: nat, j: nat)
  {
    forall p :: i <= p < j ==> MatchAt(s, p).None?
  }

  /** `re.search(r"Scan at (.+?) on", text).group(1)`; `None` where the source raises. */
  function ExtractTimestamp(text: string): (r: Option<string>)
    ensures r.Some? ==> exists j :: 0 <= j <= |text| && MatchAt(text, j) == r && NoMatchIn(text, 0, j)
    ensures r.None? ==> NoMatchIn(text, 0, |text| + 1)
  {
    SearchFrom(text, 0)
  }

  /** A timestamp that its label gives back: non-empty, one line, no ` on` inside. */
  predicate WellFormedTimestamp(t: string)
  {
    t != "" && '\n' !in t && !Contains(t, Marker)
  }

  /** Reading the timestamp back from a label gives the timestamp it was built from. */
  lemma LabelRoundTrip(t: string, frequency: string)
    requires WellFormedTimestamp(t)
    ensures ExtractTimestamp(ScanLabel(t, frequency)) == Some(t)
  {
    var s := ScanLabel(t, frequency);
    var g := |Prefix|;
    assert StartsAt(s, 0, Prefix);
    assert s[g..g + |t|] == t;
    assert StartsAt(s, g + |t|, Marker);
    LazyGroupFinds(s, g, 1, t);
  }

  /** The lazy group skips every length shorter than `t` and stops at `t`. */
  lemma {:induction false} LazyGroupFinds(s: string, g: nat, k: nat, t: string)
    requires WellFormedTimestamp(t)
    requires 1 <= k <= |t|
    requires g + |t| <= |s| && s[g..g + |t|] == t && StartsAt(s, g + |t|, Marker)
    decreases |t| - k
    ensures LazyGroup(s, g, k) == Some(t)
  {
    assert s[g + k - 1] == t[k - 1];
    if k < |t| {
      assert !StartsAt(s, g + k, Marker) by {
        if k + 3 <= |t| {
          assert !StartsAt(t, k, Marker);
          assert s[g + k] == t[k] && s[g + k + 1] == t[k + 1] && s[g + k + 2] == t[k + 2];
        } else if k + 2 == |t| {
          assert s[g + k + 2] == ' ';
        } else {
          assert s[g + k + 1] == ' ';
        }
      }
      LazyGroupFinds(s, g, k + 1, t);
    } else {
      assert s[g..g + k] == t;
    }
  }
}
