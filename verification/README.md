# discordhandler command router, modelled in Dafny

The repository is a small command router for a Discord bot (`handler.go`).
A `Handler` holds three things: an ordered list of routes (a command pattern
plus a callback), an optional fallback route, and a textual command prefix.
For each incoming message, `OnMessageCreate` first decides whether the
message is addressed to the bot. It checks three things in order: a
direct-message channel, a mention of the bot, then the prefix. It then
normalises the text. `FuzzyMatch` picks a route by exact or prefix match of
the message's whitespace-separated tokens. At most one callback runs.

The model is functional. Routes, handlers, contexts and messages are
immutable datatypes, and every operation is a pure function.

- `optional.dfy`: `Option`, which stands in for Go's nil pointers.
- `text.dfy`: the Go string primitives the router uses.
  - `unicode.IsSpace`, with Go's exact set of white-space code points.
  - `strings.Fields`, `strings.TrimSpace` and `strings.HasPrefix`.
  - `len` of a string, which counts UTF-8 bytes.
- `mentions.dfy`: the `<@ID>` / `<@!ID>` markup.
  - Go builds the pattern `<@!?(ID)>` from the bot's ID. For a snowflake
    ID (decimal digits) that pattern is literal.
  - The model therefore uses explicit string functions instead of a regex
    engine: leftmost match, match-at-start, and one-pass replace-all.
- `registry.dfy`: `Route`, `Handler`, `New`, `(*Handler).Route` (here
  `AddRoute`) and `FuzzyMatch`, which splits the text with `Fields` and
  hands the fields to `MatchFields`.
  - `FuzzyMatch` is a recursive scan that mirrors the two nested loops. It
    is proved to select the pair described declaratively: the first exact
    hit, or else the best-ranked prefix candidate.
  - `FuzzyMatchLoop` is the loop form, proved equal to the scan.
- `dispatch.dfy`: `Context` and `Derive`, which builds the context
  (`OnMessageCreate` lines 83-124). `HandleMessage` is the whole decision
  and returns which callback runs: `NoRun`, `RunRoute(i, ctx)` or
  `RunDefault(ctx)`. That return type makes "at most one handler" hold by
  construction.

Inputs that Go reads from the session become parameters:
- the bot's own ID (`selfId`);
- whether the channel is a DM channel (`isPrivate`), which is false when the
  channel lookup fails;
- the message's author ID, text and mentioned user IDs.

Two behaviours of the code that are easy to misread. The model follows
the code in both.
- **Fields after a prefix match.** The loop at handler.go:62 declares its
  own `fk` with `fk, fv :=`. That `fk` shadows the `fk` declared at
  handler.go:61, which stays 0.
  - So `fields[fk:]` at handler.go:75 is `fields[0:]`: every field, not
    the tail from the matched token.
  - `ScanFields` returns the whole list. `FuzzyMatchRanked` proves this
    for all inputs, and `PrefixMatchKeepsAllFields` shows it on an
    example.
- **Leftover markup after stripping.** `ReplaceAllString` at
  handler.go:113 makes a single pass over the text. Removing an inner
  mention can therefore join two halves into a new one.
  - `StripMentionsCanLeaveMarkup` proves that `<@<@1>1>` becomes `<@1>`.

## Model

| member | source | states |
|---|---|---|
| Text.ByteLen | handler.go:68 | the rank `len(fv)` is the UTF-8 byte length: between the character count and four times it, equal to the character count exactly for ASCII text |
| Text.Fields | handler.go:55 | every field is a non-empty run of non-space characters; there are no fields iff the text is all white space |
| Text.FieldsSplitAtSpace | handler.go:55 | a white-space character splits the text: the fields of `a + [c] + b` are the fields of `a` followed by the fields of `b` |
| Text.IsSpaceLatin1 | handler.go:84 | below U+0100 the white-space set is exactly tab, newline, vertical tab, form feed, carriage return, space, U+0085 and U+00A0; every other white-space character lies in U+1680..U+3000 |
| Text.HasPrefix | handler.go:120 | the text starts with the prefix iff the prefix is no longer than the text and agrees with it index by index |
| Text.FieldsOfJoinWords | handler.go:55 | splitting tokens joined by single blanks gives the tokens back (round trip) |
| Text.TrimSpace | handler.go:84 | the trimmed content neither starts nor ends with white space and is no longer than the raw text |
| Text.TrimSpaceSlice | handler.go:84 | the trimmed content is a contiguous slice of the raw text with only white space cut on each side |
| Text.TrimLeftSpace | handler.go:84 | the left trim is the suffix left after dropping the whole leading white-space run |
| Text.TrimRightSpace | handler.go:84 | the right trim is the prefix left after dropping the whole trailing white-space run |
| Mentions.MarkupLen | handler.go:109 | the match length at a position is 0 or the length of one of the two markup forms; a match lies inside the text and opens with `<` |
| Mentions.FindMention | handler.go:110 | `FindStringIndex(...)[0]`: a position where a mention starts with no mention before it, or none iff no position holds a mention |
| Mentions.StripFrom | handler.go:113 | replacing from a position on never lengthens the rest of the text, and keeps its length iff no mention starts from there on |
| Mentions.StripMentions | handler.go:113 | stripping never lengthens the text, and keeps its length iff the text holds no mention |
| Mentions.MatchesAtIsPrefix | handler.go:109 | comparing the mention form character by character at a position is the same as `strings.HasPrefix` on the rest of the text |
| Mentions.MarkupLenIsPrefix | handler.go:109 | the match at a position is `<@!ID>` when the rest of the text opens with it, else `<@ID>` when it opens with that, else no match |
| Mentions.FindMentionFrom | handler.go:110 | the result is the leftmost position where `<@ID>` or `<@!ID>` starts, or none iff no position holds a mention |
| Mentions.StartsWithMention | handler.go:110-112 | the mention-first flag is exactly "the leftmost mention is at position 0" |
| Mentions.MentionFirstAsWritten | handler.go:110 | the unchecked `FindStringIndex(...)[0]` fails exactly when the text holds no mention, and otherwise agrees with the total test |
| Mentions.MentionFirstPanicsWithoutMarkup | handler.go:110 | any text with no `<` makes the unchecked index fail |
| Mentions.MentionsDoNotOverlap | handler.go:109 | for a snowflake ID no mention starts inside another, so the matches that replace-all sees are disjoint |
| Mentions.StripMentionsKeepsUncovered | handler.go:113 | stripping keeps exactly the characters that lie inside no mention, in order |
| Mentions.StripFromKeepsUncovered | handler.go:113 | from any position that no mention crosses, the one-pass replace keeps exactly the characters outside every mention |
| Mentions.LoneMention | handler.go:110-113 | the text `<@ID>` alone starts with a mention and strips to the empty string |
| Mentions.StripMentionsNoMatch | handler.go:113 | text without a mention comes out of stripping unchanged |
| Mentions.StripMentionsCanLeaveMarkup | handler.go:113 | a single replace-all pass can leave a fresh mention at the start of the result |
| Registry.New | handler.go:37-41 | a fresh handler has no routes, no fallback, and the given prefix |
| Registry.AddRoute | handler.go:43-52 | registration appends exactly one route with the given pattern at the end, returns its index and changes nothing else |
| Registry.RegisteredPatternMatches | handler.go:43-66 | after registering a new single-token pattern, typing that pattern selects the new route with the pattern as the only field |
| Registry.ScanRoutesIndex | handler.go:63-73 | the inner loop stops only on a route whose pattern is the token, and the best candidate it carries stays a valid route index |
| Registry.ScanRoutesMiss | handler.go:63-73 | when no route from the current one on has the token as its pattern, the inner loop runs to the end without returning |
| Registry.ScanRoutesHit | handler.go:63-66 | the inner loop returns the first route whose pattern is the token |
| Registry.ScanFieldsShape | handler.go:59-75 | the outer loop returns a valid route or none, and a suffix of the fields that is non-empty for a non-empty list: either all of them, or the tail starting with the pattern of the route that hit exactly |
| Registry.MatchFields | handler.go:56-76 | the loops over the fields return a valid route or none, and a suffix of the fields that is empty only when there are no fields, in which case no route is chosen |
| Registry.FuzzyMatch | handler.go:54-76 | the route is a valid index; the returned fields are empty iff the text is all white space, and then no route is chosen |
| Registry.FuzzyMatchExact | handler.go:62-66 | when some token equals some pattern, the result is the first such pair in token-major, registration-minor order, with the fields from that token on, so the first field is the pattern |
| Registry.FuzzyMatchRanked | handler.go:59-75 | without an exact hit: the fields are the whole field list; no route iff no pattern starts with any token; otherwise the route outranks every other candidate (longer token in bytes, then earlier token, then earlier route) |
| Registry.BestIsUnique | handler.go:67-72 | the strict `>` ranking leaves at most one best candidate, so the ranking determines the route |
| Registry.SingleTokenGoesToFirstExtension | handler.go:67-72 | for a one-token text with no exact hit, the earliest route whose pattern extends the token wins over every later one |
| Registry.EqualRankGoesToFirstRegistered | handler.go:67-72 | with routes "help" then "hello", "he" selects "help" |
| Registry.ExactMatchKeepsToken | handler.go:64-65 | "help now" against "help" returns the route with fields "help", "now" |
| Registry.SecondTokenHitReturnsBothFields | handler.go:59-75 | when only the second of two tokens starts a pattern, the earliest such route is chosen and both fields are returned |
| Registry.PrefixMatchKeepsAllFields | handler.go:61-75 | "now he" against "help" returns the route with fields "now", "he": all fields, not the tail from the matched token |
| Registry.FuzzyMatchLoop | handler.go:54-76 | the nested loops with early return, a strict rank update and the shadowed outer index compute the same result as the scan |
| Dispatch.Derive | handler.go:83-124 | directed iff one of private, mention or prefix is set, and at most one of them is; mention-first implies mention or prefix; with the prefix, prefix plus content gives back the trimmed text; undirected content is the trimmed text |
| Dispatch.DerivePrivate | handler.go:100-105 | in a DM: directed and private, no mention or prefix flags, content is the trimmed text, and the result does not depend on mentions or prefix |
| Dispatch.DeriveMention | handler.go:105-118 | bot mentioned outside a DM: directed with the mention flag; mention-first iff the trimmed text opens with either markup; content is the one-pass strip with no re-trim; the prefix is never consulted |
| Dispatch.DeriveMentionContent | handler.go:109-113 | for a snowflake ID the mention branch's content is the trimmed text minus every character covered by a mention |
| Dispatch.DerivePrefix | handler.go:119-124 | with no DM and no mention: the prefix flag is set iff the prefix is non-empty and leads the trimmed text; then exactly one leading copy is removed and mention-first is set; otherwise the message is undirected |
| Dispatch.DeriveDirected | handler.go:100-124 | a message is directed iff DM, or bot mentioned, or a non-empty prefix leads the trimmed text |
| Dispatch.HandleMessage | handler.go:78-137 | the bot's own messages run nothing; a run route is a valid index with directed context and non-empty fields; the fallback runs only outside DMs, only when set, and with no fields |
| Dispatch.HandleMessageRoute | handler.go:125-133 | a route runs iff the author is not the bot, the message is directed and the content matches; it gets the matched fields |
| Dispatch.HandleMessageDefault | handler.go:134-136 | the fallback runs iff the author is not the bot, the message is directed, nothing matches, a fallback is set and mention-first holds; its context is the derived one |
| Dispatch.RoutedFields | handler.go:128-131 | a routed context's fields either start with the route's pattern or are all the fields of the content |
| Dispatch.UnmatchedDirectMessageIsDropped | handler.go:100-136 | an unmatched DM never reaches the fallback |
| Dispatch.NewHandlerRunsNothing | handler.go:37-41 | a handler fresh from `New` runs nothing for any message |
| Dispatch.BareMentionContext | handler.go:105-118 | outside a DM, a message that is only `<@ID>` is directed, mention-first, and has empty content |
| Dispatch.BareMentionRunsDefault | handler.go:105-136 | a message that is only `<@ID>` runs the fallback with empty content and the mention-first flag |

## Left out

- The discordgo session and state are left out (`ds.State.Channel`,
  `ds.Channel`, `ds.State.ChannelAdd`, `log.Printf`, handler.go:87-99).
  They are network and cache I/O. Channel privacy is a boolean input.
- Callbacks (`HandlerFunc`, `Run`) are opaque foreign code.
  `HandleMessage` returns which route or fallback would run. The session
  and message arguments passed to it are not modelled.
- `Route.Help` and the `error` result of `Route` are left out. The first is
  never set and the second is always nil.
- The regexp engine is left out. The pattern is modelled only for IDs made
  of decimal digits, which is what Discord IDs are. An ID with regex
  metacharacters would make Go's pattern differ from the model.
- Go strings are byte sequences. The model uses Unicode scalar values, so
  invalid UTF-8 in a message is not modelled.
- Concurrency is left out: registering routes while messages are being
  dispatched has no counterpart in the model.
- Deriving a context twice from the same input gives the same value. That
  holds because every function is pure, so it gets no lemma of its own.

## Findings

| source | as written | input that shows it | evidently intended | confidence | as-written member | corrected member |
|---|---|---|---|---|---|---|
| handler.go:110 | `reg.FindStringIndex(ctx.Content)[0]` indexes the match without a nil check, but the bot's ID can be in `mc.Mentions` while the text has no `<@ID>` markup | a reply that pings the bot: mentions = [bot ID], text "thanks" | no match means "not mentioned first": the flag stays false and stripping leaves the text unchanged | medium, not executed | Mentions.MentionFirstAsWritten, Mentions.MentionFirstPanicsWithoutMarkup | Mentions.StartsWithMention (used by Dispatch.Derive) |
