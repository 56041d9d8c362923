# Discord mention extractor, modelled in Dafny

The library pulls Discord snowflake identifiers out of free text. It knows
three mention forms: a user mention `<@123>` or `<@!123>`, a role mention
`<@&123>` and a channel mention `<#123>`. Each form is one global regular
expression (`src/index.ts:1-3`). Each public extractor applies its pattern with
`matchAll` and hands the matches to `_extractIds`. That routine returns `null`
for no match, the bare captured id for exactly one match, and an array of the
ids, in order of appearance, for two or more.

The model (`mentions.dfy`, with `Option` in `wrappers.dfy`) is purely
functional, like the source:

- `IsForm` and `IsMention` state each pattern as a grammar. For example, a user
  match is `"<@" + id + ">"` or `"<@!" + id + ">"`, where `id` is a non-empty
  run of the ASCII digits `'0'..'9'`, which is all that `\d` matches.
- `MatchAt` is a deterministic recogniser for the match that starts at one
  position. No backtracking is needed. When a `!` follows `<@`, the digit group
  cannot start at the `!`. A greedy digit run must be followed by `>`, which is
  not a digit. `MatchAt` is proved sound (its `ensures`) and complete
  (`MatchAtComplete`) against the grammar.
- `IsMatchList` states what a global `matchAll` yields. The first match is the
  leftmost one at or after the search position. The rest are found from that
  match's end. When none are left, no match starts further on. `Scan` computes
  such a list, and `ScanComplete` proves that the list is unique.
  `EveryMentionFound` proves that the list holds every mention of the kind in
  the text.
- `Shape` (`Null | One(id) | Many(ids)`) stands for the TypeScript result type
  `string | string[] | null`. `ToShape` is the shape selection of
  `_extractIds`. `ExtractIds` is `_extractIds` applied to the global match
  list. `GetUserIdsFromMention`, `GetRoleIdsFromMention` and
  `GetChannelIdsFromMention` are the three exported functions.

Another version of this module adds singular "first id" functions and a
message-URL builder. This `src/index.ts` contains neither, so the model follows
the code and leaves them out.

## Model

| member | source | states |
|---|---|---|
| `Mentions.DigitRun` | src/index.ts:1-3 | greedy `\d+`: the result is the length of the longest run of ASCII digits from the position; every character in it is a digit, and the next one is not a digit or is past the end |
| `Mentions.MatchAt` | src/index.ts:1-3 | soundness of the recogniser: a match it returns starts at the given position, is non-empty, and is a full mention of the kind, with the captured digit group as its id |
| `Mentions.MatchAtComplete` | src/index.ts:1-3 | completeness of the recogniser: every mention of the kind in the text is exactly the match it returns at that mention's start |
| `Mentions.NoMatchAt` | src/index.ts:1-3 | when the recogniser finds nothing at a position, no mention of the kind starts there |
| `Mentions.MentionSigils` | src/index.ts:1-3 | a mention is at least four characters long; it starts with `<`, then `#` for channels or `@` otherwise; the third character is `&` for roles, a digit for channels, and `!` or a digit for users |
| `Mentions.KindsDisjoint` | src/index.ts:1-3 | at any position at most one kind of mention starts, and at most one mention of that kind |
| `Mentions.OtherKindBlocks` | src/index.ts:1-3 | where a mention of one kind starts, the recogniser of any other kind finds nothing |
| `Mentions.Scan` | src/index.ts:21 | the left-to-right scan (resume at a match's end, otherwise at the next position) yields the global match list of `matchAll` |
| `Mentions.ScanComplete` | src/index.ts:21 | the global match list is unique: any list that satisfies its definition is the one the scan returns |
| `Mentions.MatchListOrdered` | src/index.ts:6 | every match in the list is a full well-formed mention of the kind at or after the search start; matches do not overlap and are in left-to-right order: each one starts at or after the end of every earlier one |
| `Mentions.NoBracketInside` | src/index.ts:1-3 | a mention holds `<` only at its first character |
| `Mentions.EveryMentionFound` | src/index.ts:21 | completeness of the global search: every mention of the kind at or after the search start is an element of the match list |
| `Mentions.OtherKindsIgnored` | src/index.ts:1-3 | no match of one extractor starts where a mention of another kind starts |
| `Mentions.ToShape` | src/index.ts:5-13 | the shape selection is well formed (an array only with two or more ids), and flattening it gives back exactly the ids it was given |
| `Mentions.ShapeRoundTrip` | src/index.ts:7-11 | on well-formed shapes the shape selection inverts flattening, so null, bare id and array are each used for one length of match list only |
| `Mentions.ExtractIds` | src/index.ts:5-13 | the result is the shape of the ids of the global match list, in order; it is well formed; and each id it holds is a non-empty run of ASCII digits |
| `Mentions.GetUserIdsFromMention` | src/index.ts:20-22 | the result is the shape of the ids of the global match list of the user pattern |
| `Mentions.GetRoleIdsFromMention` | src/index.ts:29-31 | the result is the shape of the ids of the global match list of the role pattern |
| `Mentions.GetChannelIdsFromMention` | src/index.ts:38-40 | the result is the shape of the ids of the global match list of the channel pattern |
| `Mentions.NoMatchGivesNull` | src/index.ts:7 | the result is null if and only if no mention of the kind occurs anywhere in the text |
| `Mentions.OneMatchGivesId` | src/index.ts:10-11 | the result is a bare id if and only if there is exactly one match, and then it is that match's captured id |
| `Mentions.ManyOnlyForTwoOrMore` | src/index.ts:8-9 | the result is an array if and only if there are two or more matches, and the array holds their ids in order of appearance |
| `Mentions.TwoMentionsGiveMany` | src/index.ts:8-9 | whenever the text holds two different mentions of the kind, the result is an array, and it holds both ids in their text order |
| `Mentions.OnlyMentionGivesId` | src/index.ts:10-11 | when `m` is the only mention of the kind in the text, the result is the bare id of `m` |
| `Mentions.SingleMention` | src/index.ts:1 | a text that is exactly one user mention has that mention as its only match |
| `Mentions.BangDropped` | src/index.ts:1 | for every digit string `d`, `<@!d>` and `<@d>` both give the bare id `d`; the `!` is never part of the id |
| `Mentions.MatchListSkip` | src/index.ts:21 | a stretch of text without `<` starts no mention, so a match list from its end is also the match list from its start |
| `Mentions.MatchListSkipOther` | src/index.ts:1-3 | where a mention of another kind starts, no mention of this kind starts, so the search passes over it |
| `Mentions.NoBracketGivesNull` | src/index.ts:18 | any text without `<` gives null for every kind |
| `Mentions.TwoUsersInOrder` | src/index.ts:18 | `"<@123> <@456>"` gives the user array `["123", "456"]`, in order |
| `Mentions.CrossKindMentions` | src/index.ts:1-3 | `"<@123> <@&456> <#789>"` holds a user mention of `123`, a role mention of `456` and a channel mention of `789` |
| `Mentions.CrossKindUser` | src/index.ts:21 | the user extractor returns only `"123"` for `"<@123> <@&456> <#789>"` |
| `Mentions.CrossKindRole` | src/index.ts:30 | the role extractor returns only `"456"` for `"<@123> <@&456> <#789>"` |
| `Mentions.CrossKindChannel` | src/index.ts:39 | the channel extractor returns only `"789"` for `"<@123> <@&456> <#789>"` |

## Left out

- Singular "first id" extractors and the message-URL builder: they belong to another version of the module and are not in `src/index.ts`, so there is no code to model.
- The JavaScript `RegExp` engine, the `matchAll` iterator protocol and `lastIndex`: only the three fixed patterns are modelled, as explicit recognisers. `matchAll` clones the regex, so the module-level `g` regexes keep no state between calls.
- The `m` flag: it has no effect, because none of the patterns contains `^` or `$`.
- The empty-match rule of `matchAll` (advance by one after an empty match): every match is at least four characters long, so the rule never applies.
- Depends only on the input: no lemma states it, because every member is a mathematical function of its arguments, so equal inputs give equal results by construction.
- Strings are sequences of Unicode characters, not UTF-16 code units: the patterns are pure ASCII and `\d` matches only ASCII digits, so the difference cannot change a match. A JavaScript string may also hold unpaired surrogate code units, which a Dafny `char` cannot represent, so the model's inputs are slightly fewer than the source's; the ids extracted are unaffected.
- Numeric meaning of ids: ids are opaque digit strings and are never converted to numbers.
- TypeScript typing and exports: only the result union is modelled, as `Shape`.
