/**
  Discord's user-mention markup. The router builds the pattern `<@!?(ID)>`
  from the bot's own ID; for an ID made of decimal digits that pattern is
  literal and matches exactly the two strings `<@ID>` and `<@!ID>`, so the
  pattern is modelled by explicit string functions over these two forms.
 */
module Mentions {
  import opened Optional
  import opened Text

  /** A Discord snowflake ID: a non-empty string of decimal digits. */
  predicate IsSnowflake(id: string) {
    |id| > 0 && forall i :: 0 <= i < |id| ==> '0' <= id[i] <= '9'
  }

  /** `<@ID>`, the plain mention form. */
  function PlainMention(id: string): string {
    "<@" + id + ">"
  }

  /** `<@!ID>`, the nickname mention form. */
  function NickMention(id: string): string {
    "<@!" + id + ">"
  }

  /** Whether m occurs in s at position i, compared character by character. */
  predicate MatchesAt(s: string, i: nat, m: string)
    requires i <= |s|
    ensures MatchesAt(s, i, m) ==> i + |m| <= |s| && (m != [] ==> s[i] == m[0])
    decreases |m|
  {
    m == [] || (i < |s| && s[i] == m[0] && MatchesAt(s, i + 1, m[1..]))
  }

  /** The character-wise match is `strings.HasPrefix` on the rest of s. */
  lemma {:induction false} MatchesAtIsPrefix(s: string, i: nat, m: string)
    requires i <= |s|
    ensures MatchesAt(s, i, m) <==> HasPrefix(s[i..], m)
    decreases |m|
  {
    if m != [] && i < |s| {
      MatchesAtIsPrefix(s, i + 1, m[1..]);
      if |m| <= |s| - i {
        assert s[i..][..|m|] == [s[i]] + s[i + 1..][..|m| - 1];
        assert m == [m[0]] + m[1..];
      }
    }
  }

  /** Length of the mention of id that starts at position i of s, or 0 when
      no mention of id starts there; the nickname form is tried first. */
  function MarkupLen(s: string, id: string, i: nat): (n: nat)
    requires i <= |s|
    ensures n == 0 || n == |NickMention(id)| || n == |PlainMention(id)|
    ensures n > 0 ==> i + n <= |s| && s[i] == '<'
  {
    if MatchesAt(s, i, NickMention(id)) then |NickMention(id)|
    else if MatchesAt(s, i, PlainMention(id)) then |PlainMention(id)|
    else 0
  }

  /** The mention length in terms of `strings.HasPrefix`: the length of the
      form that opens the rest of s, or 0 when neither does. */
  lemma MarkupLenIsPrefix(s: string, id: string, i: nat)
    requires i <= |s|
    ensures MarkupLen(s, id, i) ==
      if HasPrefix(s[i..], NickMention(id)) then |NickMention(id)|
      else if HasPrefix(s[i..], PlainMention(id)) then |PlainMention(id)|
      else 0
  {
    MatchesAtIsPrefix(s, i, NickMention(id));
    MatchesAtIsPrefix(s, i, PlainMention(id));
  }

  /** Whether s starts with a mention of id (the test `index == 0`
      made total). */
  function StartsWithMention(s: string, id: string): (b: bool)
    ensures b <==> FindMention(s, id) == Some(0)
  {
    MarkupLen(s, id, 0) > 0
  }

  /** Leftmost start at or after i of a mention of id in s
      (`FindStringIndex(...)[0]`), or None when there is no match. */
  function FindMentionFrom(s: string, id: string, i: nat): (r: Option<nat>)
    requires i <= |s|
    ensures r.Some? ==> i <= r.value < |s| && MarkupLen(s, id, r.value) > 0
    ensures r.Some? ==> forall j :: i <= j < r.value ==> MarkupLen(s, id, j) == 0
    ensures r.None? ==> forall j :: i <= j <= |s| ==> MarkupLen(s, id, j) == 0
    decreases |s| - i
  {
    if i == |s| then None
    else if MarkupLen(s, id, i) > 0 then Some(i)
    else FindMentionFrom(s, id, i + 1)
  }

  /** `FindStringIndex(s)[0]` when there is a match: the leftmost mention. */
  function FindMention(s: string, id: string): (r: Option<nat>)
    ensures r.Some? ==> r.value < |s| && MarkupLen(s, id, r.value) > 0
    ensures r.Some? ==> forall j :: 0 <= j < r.value ==> MarkupLen(s, id, j) == 0
    ensures r.None? <==> forall j :: 0 <= j <= |s| ==> MarkupLen(s, id, j) == 0
  {
    FindMentionFrom(s, id, 0)
  }

  /** The mention-first test exactly as the router writes it: it indexes the
      match location without checking for a match, so it panics (None here)
      whenever s holds no mention of id. */
  function MentionFirstAsWritten(s: string, id: string): (r: Option<bool>)
    ensures r.None? <==> forall j :: 0 <= j <= |s| ==> MarkupLen(s, id, j) == 0
    ensures r.Some? ==> r.value == StartsWithMention(s, id)
  {
    match FindMention(s, id)
    case None => None
    case Some(i) => Some(i == 0)
  }

  /** A text without any `<` cannot hold a mention, so the as-written test
      panics on every such text. This is what a reply that pings the bot
      produces: the bot is listed among the mentions while the text carries
      no markup. */
  lemma MentionFirstPanicsWithoutMarkup(s: string, id: string)
    requires forall i :: 0 <= i < |s| ==> s[i] != '<'
    ensures MentionFirstAsWritten(s, id) == None
  {
  }

  /** `ReplaceAllString(s, "")` for the mention pattern, from position i on:
      one left-to-right pass that drops every non-overlapping match and keeps
      every other character. */
  function StripFrom(s: string, id: string, i: nat): (r: string)
    requires i <= |s|
    ensures |r| <= |s| - i
    ensures |r| == |s| - i <==> forall j :: i <= j < |s| ==> MarkupLen(s, id, j) == 0
    decreases |s| - i
  {
    if i == |s| then []
    else
      var n := MarkupLen(s, id, i);
      if n > 0 then StripFrom(s, id, i + n)
      else [s[i]] + StripFrom(s, id, i + 1)
  }

  /** `ReplaceAllString(s, "")` over the whole text. */
  function StripMentions(s: string, id: string): (r: string)
    ensures |r| <= |s|
    ensures |r| == |s| <==> FindMention(s, id).None?
  {
    StripFrom(s, id, 0)
  }

  /** Position i of s lies inside some mention of id. */
  ghost predicate Covered(s: string, id: string, i: nat)
    requires i < |s|
  {
    exists j :: 0 <= j <= i && MarkupLen(s, id, j) > i - j
  }

  /** The characters of s from position i on that lie inside no mention. */
  ghost function Uncovered(s: string, id: string, i: nat): string
    requires i <= |s|
    decreases |s| - i
  {
    if i == |s| then []
    else (if Covered(s, id, i) then [] else [s[i]]) + Uncovered(s, id, i + 1)
  }

  /** Inside either markup form for a snowflake ID, `<` occurs only first. */
  lemma OpenOnlyAtStart(m: string, id: string, p: nat)
    requires IsSnowflake(id) && (m == PlainMention(id) || m == NickMention(id))
    requires 1 <= p < |m|
    ensures m[p] != '<'
  {
    var head := if m == PlainMention(id) then "<@" else "<@!";
    assert m == head + id + ">";
    if p < |head| {
      assert m[p] == head[p];
    } else if p < |head| + |id| {
      assert m[p] == id[p - |head|];
    } else {
      assert p == |m| - 1;
    }
  }

  /** For a snowflake ID no mention starts strictly inside another one: only
      the first character of a mention is `<`. */
  lemma MentionsDoNotOverlap(s: string, id: string, i: nat, j: nat)
    requires IsSnowflake(id)
    requires i <= |s| && MarkupLen(s, id, i) > 0
    requires i < j < i + MarkupLen(s, id, i)
    ensures MarkupLen(s, id, j) == 0
  {
    MarkupLenIsPrefix(s, id, i);
    var m := if HasPrefix(s[i..], NickMention(id)) then NickMention(id) else PlainMention(id);
    assert HasPrefix(s[i..], m);
    assert s[j] == s[i..][..|m|][j - i];
    OpenOnlyAtStart(m, id, j - i);
  }

  /** A text that is just `<@ID>` strips to nothing and starts with a mention. */
  lemma LoneMention(id: string)
    requires IsSnowflake(id)
    ensures StartsWithMention(PlainMention(id), id)
    ensures StripMentions(PlainMention(id), id) == []
  {
    var m := PlainMention(id);
    MarkupLenIsPrefix(m, id, 0);
    assert m[0..] == m;
    assert m[2] == id[0];
    assert !HasPrefix(m, NickMention(id));
    assert m[..|m|] == m;
    assert MarkupLen(m, id, 0) == |m|;
  }

  /** Every position in [i, i + n) is covered when a mention of length n
      starts at i, so those characters all drop out of `Uncovered`. */
  lemma {:induction false} UncoveredSkipsMention(s: string, id: string, i: nat, p: nat)
    requires i <= |s| && MarkupLen(s, id, i) > 0
    requires i <= p <= i + MarkupLen(s, id, i)
    ensures Uncovered(s, id, p) == Uncovered(s, id, i + MarkupLen(s, id, i))
    decreases i + MarkupLen(s, id, i) - p
  {
    var e := i + MarkupLen(s, id, i);
    if p < e {
      assert Covered(s, id, p);
      UncoveredSkipsMention(s, id, i, p + 1);
    }
  }

  /** No mention that starts before position i reaches past it. */
  ghost predicate NoMentionCrosses(s: string, id: string, i: nat)
    requires i <= |s|
  {
    forall j :: 0 <= j < i && MarkupLen(s, id, j) > 0 ==> j + MarkupLen(s, id, j) <= i
  }

  /** The scan step over a mention that starts at i: the reference skips it
      too, and no mention crosses its end. */
  lemma StripFromMention(s: string, id: string, i: nat)
    requires IsSnowflake(id) && i < |s| && MarkupLen(s, id, i) > 0
    requires NoMentionCrosses(s, id, i)
    ensures Uncovered(s, id, i) == Uncovered(s, id, i + MarkupLen(s, id, i))
    ensures NoMentionCrosses(s, id, i + MarkupLen(s, id, i))
  {
    var n := MarkupLen(s, id, i);
    UncoveredSkipsMention(s, id, i, i);
    forall j | 0 <= j < i + n && MarkupLen(s, id, j) > 0
      ensures j + MarkupLen(s, id, j) <= i + n
    {
      if i < j { MentionsDoNotOverlap(s, id, i, j); }
    }
  }

  /** The scan step over a character that starts no mention: the reference
      keeps it too. */
  lemma StripFromChar(s: string, id: string, i: nat)
    requires i < |s| && MarkupLen(s, id, i) == 0
    requires NoMentionCrosses(s, id, i)
    ensures Uncovered(s, id, i) == [s[i]] + Uncovered(s, id, i + 1)
    ensures NoMentionCrosses(s, id, i + 1)
  {
  }

  /** From a position no mention crosses, the one-pass strip keeps exactly
      the uncovered characters. */
  lemma {:induction false} StripFromKeepsUncovered(s: string, id: string, i: nat)
    requires IsSnowflake(id) && i <= |s|
    requires NoMentionCrosses(s, id, i)
    ensures StripFrom(s, id, i) == Uncovered(s, id, i)
    decreases |s| - i, 1
  {
    if i < |s| {
      if MarkupLen(s, id, i) > 0 {
        StripFromKeepsUncoveredAtMention(s, id, i);
      } else {
        StripFromKeepsUncoveredAtChar(s, id, i);
      }
    }
  }

  lemma {:induction false} StripFromKeepsUncoveredAtMention(s: string, id: string, i: nat)
    requires IsSnowflake(id) && i < |s| && MarkupLen(s, id, i) > 0
    requires NoMentionCrosses(s, id, i)
    ensures StripFrom(s, id, i) == Uncovered(s, id, i)
    decreases |s| - i, 0
  {
    StripFromMention(s, id, i);
    StripFromKeepsUncovered(s, id, i + MarkupLen(s, id, i));
  }

  lemma {:induction false} StripFromKeepsUncoveredAtChar(s: string, id: string, i: nat)
    requires IsSnowflake(id) && i < |s| && MarkupLen(s, id, i) == 0
    requires NoMentionCrosses(s, id, i)
    ensures StripFrom(s, id, i) == Uncovered(s, id, i)
    decreases |s| - i, 0
  {
    StripFromChar(s, id, i);
    StripFromKeepsUncovered(s, id, i + 1);
  }

  /** For a snowflake ID, stripping keeps exactly the characters that lie in
      no mention, in their original order. */
  lemma StripMentionsKeepsUncovered(s: string, id: string)
    requires IsSnowflake(id)
    ensures StripMentions(s, id) == Uncovered(s, id, 0)
  {
    StripFromKeepsUncovered(s, id, 0);
  }

  /** Where no mention starts at or after i, the strip keeps the rest of
      the text as it is. */
  lemma {:induction false} StripFromNoMatch(s: string, id: string, i: nat)
    requires i <= |s|
    requires forall j :: i <= j <= |s| ==> MarkupLen(s, id, j) == 0
    ensures StripFrom(s, id, i) == s[i..]
    decreases |s| - i
  {
    if i < |s| {
      assert MarkupLen(s, id, i) == 0;
      StripFromNoMatch(s, id, i + 1);
      assert s[i..] == [s[i]] + s[i + 1..];
    }
  }

  /** A text without mentions comes out of stripping unchanged. */
  lemma StripMentionsNoMatch(s: string, id: string)
    requires FindMention(s, id).None?
    ensures StripMentions(s, id) == s
  {
    StripFromNoMatch(s, id, 0);
  }

  /** A single pass can leave a mention behind: removing the inner mention of
      `<@<@1>1>` joins its two halves into a new one. */
  lemma StripMentionsCanLeaveMarkup()
    ensures StripMentions("<@<@1>1>", "1") == "<@1>"
    ensures StartsWithMention(StripMentions("<@<@1>1>", "1"), "1")
  {
    var s := "<@<@1>1>";
    assert NickMention("1") == "<@!1>" && PlainMention("1") == "<@1>";
    assert MarkupLen(s, "1", 0) == 0 && MarkupLen(s, "1", 1) == 0;
    assert MarkupLen(s, "1", 2) == 4;
    assert MarkupLen(s, "1", 6) == 0 && MarkupLen(s, "1", 7) == 0;
    assert MarkupLen("<@1>", "1", 0) == 4;
  }


}
