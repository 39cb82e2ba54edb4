/**
 * `parse_user_preferences`, shared by the three agents: an appliance may use
 * peak hours when the user's message contains "Allow <name> ON during peak
 * hours", compared without regard to case.
 */
module Preferences {

  /** ASCII lower-casing, the case folding `re.IGNORECASE` applies to these names. */
  function Lower(c: char): (d: char)
    ensures 'A' <= c <= 'Z' ==> d as int == c as int + 32
    ensures !('A' <= c <= 'Z') ==> d == c
  {
    if 'A' <= c <= 'Z' then (c as int + 32) as char else c
  }

  /** `pat` occurs in `text` at position `i`, ignoring case. */
  predicate MatchesAt(text: string, pat: string, i: int)
  {
    0 <= i && i + |pat| <= |text| &&
    forall k :: 0 <= k < |pat| ==> Lower(text[i + k]) == Lower(pat[k])
  }

  /** Whether `pat` matches at position `i`, checked character by character. */
  function MatchHere(text: string, pat: string, i: nat, k: nat): (b: bool)
    requires i + |pat| <= |text| && k <= |pat|
    ensures b <==> forall m :: k <= m < |pat| ==> Lower(text[i + m]) == Lower(pat[m])
    decreases |pat| - k
  {
    if k == |pat| then true
    else Lower(text[i + k]) == Lower(pat[k]) && MatchHere(text, pat, i, k + 1)
  }

  /**
   * `re.search(pat, text, re.IGNORECASE)` for a pattern without regular
   * expression metacharacters: the leftmost match at or after `i`.
   */
  function SearchFrom(text: string, pat: string, i: nat): (found: bool)
    ensures found <==> exists j :: i <= j && MatchesAt(text, pat, j)
    decreases |text| - i
  {
    if i + |pat| > |text| then false
    else if MatchHere(text, pat, i, 0) then
      assert MatchesAt(text, pat, i);
      true
    else
      var rest := SearchFrom(text, pat, i + 1);
      assert !MatchesAt(text, pat, i);
      assert forall j :: i <= j && MatchesAt(text, pat, j) ==> i + 1 <= j;
      rest
  }

  /** The phrase that grants peak hours to an appliance. */
  function Phrase(appliance: string): string
  {
    "Allow " + appliance + " ON during peak hours"
  }

  /**
   * `parse_user_preferences`: every appliance gets an entry, true exactly
   * when its phrase occurs in the message ignoring case.
   */
  function ParseUserPreferences(msg: string, appliances: seq<string>): (m: map<string, bool>)
    ensures forall a :: a in m <==> a in appliances
    ensures forall a :: a in m ==> (m[a] <==> exists j :: MatchesAt(msg, Phrase(a), j))
  {
    map a | a in appliances :: SearchFrom(msg, Phrase(a), 0)
  }

  /** A message that contains the phrase verbatim grants peak hours. */
  lemma VerbatimPhraseAllows(before: string, after: string, appliance: string, appliances: seq<string>)
    requires appliance in appliances
    ensures ParseUserPreferences(before + Phrase(appliance) + after, appliances)[appliance]
  {
    var msg := before + Phrase(appliance) + after;
    assert MatchesAt(msg, Phrase(appliance), |before|) by {
      forall k | 0 <= k < |Phrase(appliance)|
        ensures msg[|before| + k] == Phrase(appliance)[k]
      {
      }
    }
  }

  /** Case does not matter: a message that differs only in case gives the same answer. */
  lemma CaseInsensitive(msg1: string, msg2: string, appliances: seq<string>)
    requires |msg1| == |msg2|
    requires forall i :: 0 <= i < |msg1| ==> Lower(msg1[i]) == Lower(msg2[i])
    ensures ParseUserPreferences(msg1, appliances) == ParseUserPreferences(msg2, appliances)
  {
    var m1 := ParseUserPreferences(msg1, appliances);
    var m2 := ParseUserPreferences(msg2, appliances);
    forall a | a in appliances
      ensures m1[a] == m2[a]
    {
      forall j | MatchesAt(msg1, Phrase(a), j)
        ensures MatchesAt(msg2, Phrase(a), j)
      {
      }
      forall j | MatchesAt(msg2, Phrase(a), j)
        ensures MatchesAt(msg1, Phrase(a), j)
      {
      }
    }
  }

  /** A message shorter than an appliance's phrase never grants it peak hours. */
  lemma ShortMessageDenies(msg: string, appliance: string, appliances: seq<string>)
    requires appliance in appliances
    requires |msg| < |Phrase(appliance)|
    ensures !ParseUserPreferences(msg, appliances)[appliance]
  {
  }

  /**
   * A message that is exactly one appliance's phrase grants that appliance
   * peak hours and denies every appliance with a longer name.
   */
  lemma PhraseOnlyMessage(name: string, appliances: seq<string>)
    requires name in appliances
    ensures var m := ParseUserPreferences(Phrase(name), appliances);
      && m[name]
      && forall a :: a in appliances && |a| > |name| ==> !m[a]
  {
    assert Phrase(name) == [] + Phrase(name) + [];
    VerbatimPhraseAllows([], [], name, appliances);
    forall a | a in appliances && |a| > |name|
      ensures !ParseUserPreferences(Phrase(name), appliances)[a]
    {
      ShortMessageDenies(Phrase(name), a, appliances);
    }
  }
}
