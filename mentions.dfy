/**
  Extraction of Discord snowflake identifiers from user, role and channel
  mentions in free text (src/index.ts).

  The three regular expressions of the source are written as declarative
  grammars (IsForm), recognised by a deterministic function (MatchAt) and
  applied globally by a left-to-right scanner (Scan) that reproduces
  `String.prototype.matchAll`: the leftmost match at or after the current
  position is taken, and scanning resumes at its end.
*/
module Mentions {
  import opened Wrappers

  /** The three mention kinds, one per pattern constant of the source. */
  datatype Kind = User | Role | Channel

  /** One match of a pattern: the span text[start..end] and its captured digit group. */
  datatype Match = Match(start: nat, id: string, end: nat)

  /** The result of the extractors, `null | string | string[]` in the source. */
  datatype Shape = Null | One(id: string) | Many(ids: seq<string>)

  // ---------------------------------------------------------------------------
  // The patterns, declaratively
  // ---------------------------------------------------------------------------

  /** `\d`: the ASCII decimal digits only. */
  predicate IsDigit(c: char) {
    '0' <= c <= '9'
  }

  predicate AllDigits(s: string) {
    forall k :: 0 <= k < |s| ==> IsDigit(s[k])
  }

  /**
    `s` is a whole match of the kind's pattern whose capture group is `id`:
      User     <@!?(\d+)>
      Role     <@&(\d+)>
      Channel  <#(\d+)>
  */
  predicate IsForm(kind: Kind, s: string, id: string) {
    && |id| > 0
    && AllDigits(id)
    && match kind
       case User => s == "<@" + id + ">" || s == "<@!" + id + ">"
       case Role => s == "<@&" + id + ">"
       case Channel => s == "<#" + id + ">"
  }

  /** `m` is a match of the kind's pattern inside `text`. */
  predicate IsMention(kind: Kind, text: string, m: Match) {
    m.start <= m.end <= |text| && IsForm(kind, text[m.start..m.end], m.id)
  }

  /** No match of the kind's pattern starts at a position in [lo, hi). */
  ghost predicate NoMentionIn(kind: Kind, text: string, lo: int, hi: int) {
    forall m :: IsMention(kind, text, m) ==> !(lo <= m.start < hi)
  }

  /**
    `ms` is what a global match of the kind's pattern yields when the search
    starts at `from`: the first element is the leftmost match starting at or
    after `from`, the rest is the list found from that match's end, and when
    nothing is left no match starts at or after `from`.
  */
  ghost predicate IsMatchList(kind: Kind, text: string, from: nat, ms: seq<Match>)
    decreases |ms|
  {
    if ms == [] then
      NoMentionIn(kind, text, from, |text|)
    else
      && from <= ms[0].start
      && NoMentionIn(kind, text, from, ms[0].start)
      && IsMention(kind, text, ms[0])
      && IsMatchList(kind, text, ms[0].end, ms[1..])
  }

  /** The captured ids of a list of matches, in order. */
  function IdsOf(ms: seq<Match>): seq<string> {
    seq(|ms|, k requires 0 <= k < |ms| => ms[k].id)
  }

  // ---------------------------------------------------------------------------
  // Facts about the grammar
  // ---------------------------------------------------------------------------

  /** Splits a span that equals opener + id + ">" into its three parts. */
  lemma SpanParts(text: string, s: nat, e: nat, o: string, id: string)
    requires s <= e <= |text| && text[s..e] == o + id + ">"
    ensures e == s + |o| + |id| + 1
    ensures text[s..s + |o|] == o
    ensures text[s + |o|..s + |o| + |id|] == id
    ensures text[e - 1] == '>'
  {
    var t := o + id + ">";
    forall k | 0 <= k < |o| ensures text[s + k] == o[k] {
      assert text[s + k] == t[k];
    }
    forall k | 0 <= k < |id| ensures text[s + |o| + k] == id[k] {
      assert text[s + |o| + k] == t[|o| + k];
    }
    assert text[e - 1] == t[|o| + |id|];
  }

  /** The characters after '<' fix the kind of a mention: '#', "@&", or '@' and then '!' or a digit. */
  lemma MentionSigils(kind: Kind, text: string, m: Match)
    requires IsMention(kind, text, m)
    ensures m.start + 3 < m.end
    ensures text[m.start] == '<'
    ensures text[m.start + 1] == (if kind == Channel then '#' else '@')
    ensures kind == Role ==> text[m.start + 2] == '&'
    ensures kind == Channel ==> IsDigit(text[m.start + 2])
    ensures kind == User ==> text[m.start + 2] == '!' || IsDigit(text[m.start + 2])
  {
    var span := text[m.start..m.end];
    assert text[m.start] == span[0] && text[m.start + 1] == span[1] && text[m.start + 2] == span[2];
    match kind
    case User =>
      if span == "<@" + m.id + ">" {
        assert span[2] == m.id[0];
      } else {
        assert span[2] == '!';
      }
    case Role =>
      assert span[2] == '&';
    case Channel =>
      assert span[2] == m.id[0];
  }

  /**
    Kinds stay separate: at any position at most one kind of mention starts,
    and at most one mention of that kind.
  */
  lemma KindsDisjoint(text: string, k1: Kind, m1: Match, k2: Kind, m2: Match)
    requires IsMention(k1, text, m1) && IsMention(k2, text, m2)
    requires m1.start == m2.start
    ensures k1 == k2 && m1 == m2
  {
    MentionSigils(k1, text, m1);
    MentionSigils(k2, text, m2);
    assert k1 == k2;
    MatchAtComplete(text, k1, m1);
    MatchAtComplete(text, k2, m2);
  }

  // ---------------------------------------------------------------------------
  // The recogniser
  // ---------------------------------------------------------------------------

  /** The length of the longest run of digits starting at `j` (greedy `\d+`). */
  function DigitRun(text: string, j: nat): (n: nat)
    requires j <= |text|
    ensures j + n <= |text|
    ensures forall k :: j <= k < j + n ==> IsDigit(text[k])
    ensures j + n == |text| || !IsDigit(text[j + n])
    decreases |text| - j
  {
    if j < |text| && IsDigit(text[j]) then 1 + DigitRun(text, j + 1) else 0
  }

  /** A run of digits ended by a non-digit is the one DigitRun measures. */
  lemma DigitRunExact(text: string, j: nat, n: nat)
    requires j + n < |text|
    requires forall k :: j <= k < j + n ==> IsDigit(text[k])
    requires !IsDigit(text[j + n])
    ensures DigitRun(text, j) == n
  {
  }

  /**
    Where the digit group would start if a mention of `kind` starts at `i`:
    after "<@" or "<@!" for users (the optional '!' is tried first; when it is
    present the group cannot start at the '!', so no backtracking applies),
    after "<@&" for roles and after "<#" for channels.
  */
  function OpenerEnd(text: string, i: nat, kind: Kind): (r: Option<nat>)
    requires i <= |text|
    ensures r.Some? ==> i + 2 <= r.value <= |text|
  {
    match kind
    case User =>
      if i + 2 <= |text| && text[i] == '<' && text[i + 1] == '@' then
        if i + 2 < |text| && text[i + 2] == '!' then Some(i + 3) else Some(i + 2)
      else None
    case Role =>
      if i + 3 <= |text| && text[i] == '<' && text[i + 1] == '@' && text[i + 2] == '&' then Some(i + 3) else None
    case Channel =>
      if i + 2 <= |text| && text[i] == '<' && text[i + 1] == '#' then Some(i + 2) else None
  }

  /** The match of the kind's pattern that starts exactly at `i`, if any. */
  function MatchAt(text: string, i: nat, kind: Kind): (r: Option<Match>)
    requires i <= |text|
    ensures r.Some? ==> r.value.start == i && i < r.value.end && IsMention(kind, text, r.value)
  {
    match OpenerEnd(text, i, kind)
    case None => None
    case Some(j) =>
      var n := DigitRun(text, j);
      if 0 < n && j + n < |text| && text[j + n] == '>' then
        var m := Match(i, text[j..j + n], j + n + 1);
        assert text[i..m.end] == text[i..j] + m.id + ">";
        Some(m)
      else
        None
  }

  /** MatchAt returns a mention once the opener it sees is the mention's own. */
  lemma MatchAtFromOpener(text: string, kind: Kind, m: Match, o: string)
    requires m.start <= m.end <= |text| && text[m.start..m.end] == o + m.id + ">"
    requires 0 < |m.id| && AllDigits(m.id)
    requires OpenerEnd(text, m.start, kind) == Some(m.start + |o|)
    ensures MatchAt(text, m.start, kind) == Some(m)
  {
    SpanParts(text, m.start, m.end, o, m.id);
    var j := m.start + |o|;
    forall k | j <= k < j + |m.id| ensures IsDigit(text[k]) {
      assert text[k] == text[j..j + |m.id|][k - j];
    }
    DigitRunExact(text, j, |m.id|);
    assert j + |m.id| < |text| && text[j + |m.id|] == '>';
    assert Match(m.start, text[j..j + |m.id|], j + |m.id| + 1) == m;
  }

  /** MatchAt finds every mention: a mention starting at `m.start` is the one MatchAt returns there. */
  lemma MatchAtComplete(text: string, kind: Kind, m: Match)
    requires IsMention(kind, text, m)
    ensures MatchAt(text, m.start, kind) == Some(m)
  {
    MentionSigils(kind, text, m);
    var span := text[m.start..m.end];
    match kind
    case User =>
      if text[m.start + 2] == '!' {
        assert span[2] == '!';
        assert span != "<@" + m.id + ">" by { assert ("<@" + m.id + ">")[2] == m.id[0]; }
        MatchAtFromOpener(text, kind, m, "<@!");
      } else {
        assert span[2] != '!';
        MatchAtFromOpener(text, kind, m, "<@");
      }
    case Role =>
      MatchAtFromOpener(text, kind, m, "<@&");
    case Channel =>
      MatchAtFromOpener(text, kind, m, "<#");
  }

  /** No mention of the kind starts where MatchAt finds none. */
  lemma NoMatchAt(text: string, i: nat, kind: Kind)
    requires i <= |text| && MatchAt(text, i, kind).None?
    ensures forall m :: IsMention(kind, text, m) ==> m.start != i
  {
    forall m | IsMention(kind, text, m) ensures m.start != i {
      MatchAtComplete(text, kind, m);
    }
  }

  // ---------------------------------------------------------------------------
  // The global scan (`matchAll` with the `g` flag)
  // ---------------------------------------------------------------------------

  /**
    All matches from position `from` on: on a match, resume at its end; on
    none, try the next position. Every match is at least four characters
    long, so the empty-match rule of `matchAll` never applies.
  */
  function Scan(text: string, from: nat, kind: Kind): (ms: seq<Match>)
    requires from <= |text|
    ensures IsMatchList(kind, text, from, ms)
    decreases |text| - from
  {
    if from == |text| then
      []
    else
      match MatchAt(text, from, kind)
      case Some(m) =>
        var rest := Scan(text, m.end, kind);
        assert ([m] + rest)[1..] == rest;
        [m] + rest
      case None =>
        NoMatchAt(text, from, kind);
        Scan(text, from + 1, kind)
  }

  /** A mention starting at `from` is the first element of every match list from `from`. */
  lemma FirstOfMatchList(text: string, from: nat, kind: Kind, ms: seq<Match>, m: Match)
    requires IsMatchList(kind, text, from, ms)
    requires IsMention(kind, text, m) && m.start == from
    ensures ms != [] && ms[0] == m
  {
    MentionSigils(kind, text, m);
    assert ms != [];
    assert ms[0].start == from;
    KindsDisjoint(text, kind, ms[0], kind, m);
  }

  /** When no mention starts at `from`, a match list from `from` is also one from `from + 1`. */
  lemma SkipNonMention(text: string, from: nat, kind: Kind, ms: seq<Match>)
    requires IsMatchList(kind, text, from, ms)
    requires forall m :: IsMention(kind, text, m) ==> m.start != from
    ensures IsMatchList(kind, text, from + 1, ms)
  {
    if ms != [] {
      assert ms[0].start != from;
    }
  }

  /** The global match list is unique: whatever satisfies IsMatchList is what Scan returns. */
  lemma {:induction false} ScanComplete(text: string, from: nat, kind: Kind, ms: seq<Match>)
    requires from <= |text| && IsMatchList(kind, text, from, ms)
    ensures ms == Scan(text, from, kind)
    decreases |text| - from, 1
  {
    if from == |text| {
      if ms != [] {
        MentionSigils(kind, text, ms[0]);
      }
    } else if MatchAt(text, from, kind).Some? {
      ScanCompleteAtMatch(text, from, kind, ms);
    } else {
      ScanCompleteAtSkip(text, from, kind, ms);
    }
  }

  /** ScanComplete when a mention starts at `from`. */
  lemma {:induction false} ScanCompleteAtMatch(text: string, from: nat, kind: Kind, ms: seq<Match>)
    requires from < |text| && IsMatchList(kind, text, from, ms)
    requires MatchAt(text, from, kind).Some?
    ensures ms == Scan(text, from, kind)
    decreases |text| - from, 0
  {
    var m := MatchAt(text, from, kind).value;
    assert Scan(text, from, kind) == [m] + Scan(text, m.end, kind);
    FirstOfMatchList(text, from, kind, ms, m);
    ScanComplete(text, m.end, kind, ms[1..]);
    assert ms == [m] + ms[1..];
  }

  /** ScanComplete when no mention starts at `from`. */
  lemma {:induction false} ScanCompleteAtSkip(text: string, from: nat, kind: Kind, ms: seq<Match>)
    requires from < |text| && IsMatchList(kind, text, from, ms)
    requires MatchAt(text, from, kind).None?
    ensures ms == Scan(text, from, kind)
    decreases |text| - from, 0
  {
    assert Scan(text, from, kind) == Scan(text, from + 1, kind);
    NoMatchAt(text, from, kind);
    SkipNonMention(text, from, kind, ms);
    ScanComplete(text, from + 1, kind, ms);
  }

  /**
    The matches of a global search are sound, in order and non-overlapping:
    each is a full mention of the kind at or after `from`, and each starts at
    or after the end of every one before it.
  */
  lemma {:induction false} MatchListOrdered(text: string, from: nat, kind: Kind, ms: seq<Match>)
    requires IsMatchList(kind, text, from, ms)
    ensures forall k :: 0 <= k < |ms| ==> from <= ms[k].start && IsMention(kind, text, ms[k])
    ensures forall a, b :: 0 <= a < b < |ms| ==> ms[a].end <= ms[b].start
    decreases |ms|
  {
    if ms != [] {
      MatchListOrdered(text, ms[0].end, kind, ms[1..]);
      forall k | 1 <= k < |ms| ensures from <= ms[k].start && IsMention(kind, text, ms[k]) {
        assert ms[k] == ms[1..][k - 1];
      }
      forall a, b | 0 <= a < b < |ms| ensures ms[a].end <= ms[b].start {
        assert ms[b] == ms[1..][b - 1];
        if a > 0 {
          assert ms[a] == ms[1..][a - 1];
        }
      }
    }
  }

  /** A mention holds '<' only at its first character. */
  lemma NoBracketInside(kind: Kind, text: string, m: Match)
    requires IsMention(kind, text, m)
    ensures forall p :: m.start < p < m.end ==> text[p] != '<'
  {
    var span := text[m.start..m.end];
    assert forall q :: 0 < q < |span| ==> span[q] != '<' by {
      assert AllDigits(m.id);
      forall q | 0 < q < |span| ensures span[q] != '<' {
        match kind
        case User =>
          if span == "<@" + m.id + ">" {
            assert 2 <= q < |span| - 1 ==> span[q] == m.id[q - 2];
          } else {
            assert 3 <= q < |span| - 1 ==> span[q] == m.id[q - 3];
          }
        case Role =>
          assert 3 <= q < |span| - 1 ==> span[q] == m.id[q - 3];
        case Channel =>
          assert 2 <= q < |span| - 1 ==> span[q] == m.id[q - 2];
      }
    }
    forall p | m.start < p < m.end ensures text[p] != '<' {
      assert text[p] == span[p - m.start];
    }
  }

  /**
    Completeness of the global search: every mention of the kind that starts
    at or after `from` is one of the matches. Two mentions of one kind never
    overlap, because the second one's '<' cannot lie inside the first.
  */
  lemma {:induction false} EveryMentionFound(text: string, from: nat, kind: Kind, ms: seq<Match>, m: Match)
    requires IsMatchList(kind, text, from, ms)
    requires IsMention(kind, text, m) && from <= m.start
    ensures m in ms
    decreases |ms|
  {
    MentionSigils(kind, text, m);
    assert ms != [];
    if m.start == ms[0].start {
      KindsDisjoint(text, kind, m, kind, ms[0]);
    } else {
      NoBracketInside(kind, text, ms[0]);
      EveryMentionFound(text, ms[0].end, kind, ms[1..], m);
      assert m in ms[1..];
    }
  }

  /** An extractor of one kind never reports a match where a mention of another kind starts. */
  lemma OtherKindsIgnored(text: string, kind: Kind, ms: seq<Match>, other: Kind, m: Match)
    requires IsMatchList(kind, text, 0, ms)
    requires other != kind && IsMention(other, text, m)
    ensures forall k :: 0 <= k < |ms| ==> ms[k].start != m.start
  {
    MatchListOrdered(text, 0, kind, ms);
    forall k | 0 <= k < |ms| ensures ms[k].start != m.start {
      if ms[k].start == m.start {
        KindsDisjoint(text, kind, ms[k], other, m);
      }
    }
  }

  // ---------------------------------------------------------------------------
  // Result shapes (`_extractIds`)
  // ---------------------------------------------------------------------------

  /** A Many result always holds at least two ids. */
  predicate WellFormed(r: Shape) {
    r.Many? ==> |r.ids| >= 2
  }

  /** The ids a shape stands for, in order. */
  function Flatten(r: Shape): seq<string> {
    match r
    case Null => []
    case One(id) => [id]
    case Many(ids) => ids
  }

  /** `_extractIds`: null for no ids, the bare id for one, the array for two or more. */
  function ToShape(ids: seq<string>): (r: Shape)
    ensures WellFormed(r) && Flatten(r) == ids
  {
    if |ids| == 0 then Null
    else if |ids| > 1 then Many(ids)
    else One(ids[0])
  }

  /** ToShape is the inverse of Flatten on well-formed shapes, so a shape loses no ids and adds none. */
  lemma ShapeRoundTrip(r: Shape)
    requires WellFormed(r)
    ensures ToShape(Flatten(r)) == r
  {
  }

  /**
    Extraction of all ids of one kind: the shape of the ids of the global
    match list, in order of appearance.
  */
  function ExtractIds(text: string, kind: Kind): (r: Shape)
    ensures WellFormed(r)
    ensures forall ms :: IsMatchList(kind, text, 0, ms) ==> r == ToShape(IdsOf(ms))
    ensures forall k :: 0 <= k < |Flatten(r)| ==> |Flatten(r)[k]| > 0 && AllDigits(Flatten(r)[k])
  {
    var ms := Scan(text, 0, kind);
    MatchListOrdered(text, 0, kind, ms);
    assert forall ms' :: IsMatchList(kind, text, 0, ms') ==> ms' == ms by {
      forall ms' | IsMatchList(kind, text, 0, ms') ensures ms' == ms {
        ScanComplete(text, 0, kind, ms');
      }
    }
    ToShape(IdsOf(ms))
  }

  /** `getUserIdsFromMention`. */
  function GetUserIdsFromMention(text: string): (r: Shape)
    ensures forall ms :: IsMatchList(User, text, 0, ms) ==> r == ToShape(IdsOf(ms))
  {
    ExtractIds(text, User)
  }

  /** `getRoleIdsFromMention`. */
  function GetRoleIdsFromMention(text: string): (r: Shape)
    ensures forall ms :: IsMatchList(Role, text, 0, ms) ==> r == ToShape(IdsOf(ms))
  {
    ExtractIds(text, Role)
  }

  /** `getChannelIdsFromMention`. */
  function GetChannelIdsFromMention(text: string): (r: Shape)
    ensures forall ms :: IsMatchList(Channel, text, 0, ms) ==> r == ToShape(IdsOf(ms))
  {
    ExtractIds(text, Channel)
  }

  // ---------------------------------------------------------------------------
  // Properties of the extractors
  // ---------------------------------------------------------------------------

  /** The result is null exactly when the text holds no mention of the kind. */
  lemma NoMatchGivesNull(text: string, kind: Kind)
    ensures ExtractIds(text, kind) == Null <==> NoMentionIn(kind, text, 0, |text|)
  {
    var ms := Scan(text, 0, kind);
    if ms != [] {
      MatchListOrdered(text, 0, kind, ms);
    }
  }

  /** Exactly one match gives the bare id, not a one-element array. */
  lemma OneMatchGivesId(text: string, kind: Kind, ms: seq<Match>)
    requires IsMatchList(kind, text, 0, ms)
    ensures ExtractIds(text, kind).One? <==> |ms| == 1
    ensures |ms| == 1 ==> ExtractIds(text, kind) == One(ms[0].id)
  {
  }

  /** An array comes back only for two or more matches, and holds their ids left to right. */
  lemma ManyOnlyForTwoOrMore(text: string, kind: Kind, ms: seq<Match>)
    requires IsMatchList(kind, text, 0, ms)
    ensures ExtractIds(text, kind).Many? <==> |ms| >= 2
    ensures |ms| >= 2 ==> ExtractIds(text, kind).ids == IdsOf(ms)
  {
  }

  /** A text that is one whole user mention has that mention as its only match. */
  lemma SingleMention(text: string, d: string)
    requires IsForm(User, text, d)
    ensures IsMatchList(User, text, 0, [Match(0, d, |text|)])
  {
    var m := Match(0, d, |text|);
    assert text[0..|text|] == text;
    assert IsMention(User, text, m);
    forall m' | IsMention(User, text, m') ensures !(|text| <= m'.start < |text|) {
    }
    assert [m][1..] == [];
  }

  /** Two different mentions of the kind anywhere in the text give an array that holds both ids, in text order. */
  lemma TwoMentionsGiveMany(text: string, kind: Kind, m1: Match, m2: Match)
    requires IsMention(kind, text, m1) && IsMention(kind, text, m2)
    requires m1.start < m2.start
    ensures ExtractIds(text, kind).Many?
    ensures exists i, j :: 0 <= i < j < |ExtractIds(text, kind).ids|
                           && ExtractIds(text, kind).ids[i] == m1.id
                           && ExtractIds(text, kind).ids[j] == m2.id
  {
    var ms := Scan(text, 0, kind);
    MatchListOrdered(text, 0, kind, ms);
    EveryMentionFound(text, 0, kind, ms, m1);
    EveryMentionFound(text, 0, kind, ms, m2);
    var i :| 0 <= i < |ms| && ms[i] == m1;
    var j :| 0 <= j < |ms| && ms[j] == m2;
    MentionSigils(kind, text, m2);
    assert i < j;
    assert IdsOf(ms)[i] == m1.id && IdsOf(ms)[j] == m2.id;
  }

  /** A text whose only mention of the kind is `m` gives the bare id of `m`. */
  lemma OnlyMentionGivesId(text: string, kind: Kind, m: Match)
    requires IsMention(kind, text, m)
    requires forall m' :: IsMention(kind, text, m') ==> m' == m
    ensures ExtractIds(text, kind) == One(m.id)
  {
    var ms := Scan(text, 0, kind);
    MatchListOrdered(text, 0, kind, ms);
    EveryMentionFound(text, 0, kind, ms, m);
    MentionSigils(kind, text, m);
    assert ms[0] == m;
    MatchListOrdered(text, m.end, kind, ms[1..]);
    assert ms[1..] == [];
    assert ms == [m];
  }

  /** The '!' nickname marker is dropped: "<@!d>" and "<@d>" both give the bare id d. */
  lemma BangDropped(d: string)
    requires |d| > 0 && AllDigits(d)
    ensures GetUserIdsFromMention("<@!" + d + ">") == One(d)
    ensures GetUserIdsFromMention("<@" + d + ">") == One(d)
  {
    SingleMention("<@!" + d + ">", d);
    SingleMention("<@" + d + ">", d);
  }

  /** At a position that forms a mention of another kind, MatchAt finds nothing. */
  lemma OtherKindBlocks(text: string, kind: Kind, other: Kind, m: Match)
    requires other != kind && IsMention(other, text, m)
    ensures MatchAt(text, m.start, kind).None?
  {
    if MatchAt(text, m.start, kind).Some? {
      KindsDisjoint(text, kind, MatchAt(text, m.start, kind).value, other, m);
    }
  }

  // ---------------------------------------------------------------------------
  // Worked examples
  //
  // Each example takes its text as a parameter fixed by `requires t == "..."`:
  // with a literal argument the verifier unrolls Scan over the whole text at
  // once and runs out of resources.
  // ---------------------------------------------------------------------------

  /** A stretch of text without '<' starts no mention, so a match list from its end is one from its start. */
  lemma MatchListSkip(text: string, from: nat, to: nat, kind: Kind, ms: seq<Match>)
    requires from <= to <= |text|
    requires forall p :: from <= p < to ==> text[p] != '<'
    requires IsMatchList(kind, text, to, ms)
    ensures IsMatchList(kind, text, from, ms)
  {
    forall m | IsMention(kind, text, m) ensures !(from <= m.start < to) {
      MentionSigils(kind, text, m);
    }
  }

  /** Where a mention of another kind starts, no mention of this kind starts. */
  lemma MatchListSkipOther(text: string, kind: Kind, other: Kind, m: Match, ms: seq<Match>)
    requires other != kind && IsMention(other, text, m)
    requires IsMatchList(kind, text, m.start + 1, ms)
    ensures IsMatchList(kind, text, m.start, ms)
  {
    forall m' | IsMention(kind, text, m') ensures m'.start != m.start {
      if m'.start == m.start {
        KindsDisjoint(text, kind, m', other, m);
      }
    }
  }

  /** A text with no '<' gives null. */
  lemma NoBracketGivesNull(t: string, kind: Kind)
    requires forall p :: 0 <= p < |t| ==> t[p] != '<'
    ensures ExtractIds(t, kind) == Null
  {
    MatchListSkip(t, 0, |t|, kind, []);
  }

  /** Two user mentions give an array of both ids, in order of appearance. */
  lemma TwoUsersInOrder(t: string)
    requires t == "<@123> <@456>"
    ensures GetUserIdsFromMention(t) == Many(["123", "456"])
  {
    var u1, u2 := Match(0, "123", 6), Match(7, "456", 13);
    assert t[0..6] == "<@123>" && t[7..13] == "<@456>";
    assert IsMatchList(User, t, 7, [u2]);
    MatchListSkip(t, 6, 7, User, [u2]);
    assert [u1, u2][1..] == [u2];
    assert IsMatchList(User, t, 0, [u1, u2]);
    assert IdsOf([u1, u2]) == ["123", "456"];
  }

  /** The three mentions of "<@123> <@&456> <#789>": a user, a role and a channel mention. */
  lemma CrossKindMentions(t: string)
    requires t == "<@123> <@&456> <#789>"
    ensures IsMention(User, t, Match(0, "123", 6))
    ensures IsMention(Role, t, Match(7, "456", 14))
    ensures IsMention(Channel, t, Match(15, "789", 21))
  {
    assert t[0..6] == "<@123>" && t[7..14] == "<@&456>" && t[15..21] == "<#789>";
  }

  /** The user extractor returns only the user id of the cross-kind example. */
  lemma CrossKindUser(t: string)
    requires t == "<@123> <@&456> <#789>"
    ensures GetUserIdsFromMention(t) == One("123")
  {
    CrossKindMentions(t);
    var u, r, c := Match(0, "123", 6), Match(7, "456", 14), Match(15, "789", 21);
    MatchListSkip(t, 16, 21, User, []);
    MatchListSkipOther(t, User, Channel, c, []);
    MatchListSkip(t, 8, 15, User, []);
    MatchListSkipOther(t, User, Role, r, []);
    MatchListSkip(t, 6, 7, User, []);
    assert [u][1..] == [];
    assert IsMatchList(User, t, 0, [u]);
  }

  /** The role extractor returns only the role id of the cross-kind example. */
  lemma CrossKindRole(t: string)
    requires t == "<@123> <@&456> <#789>"
    ensures GetRoleIdsFromMention(t) == One("456")
  {
    CrossKindMentions(t);
    var u, r, c := Match(0, "123", 6), Match(7, "456", 14), Match(15, "789", 21);
    MatchListSkip(t, 16, 21, Role, []);
    MatchListSkipOther(t, Role, Channel, c, []);
    MatchListSkip(t, 14, 15, Role, []);
    assert [r][1..] == [];
    assert IsMatchList(Role, t, 7, [r]);
    MatchListSkip(t, 1, 7, Role, [r]);
    MatchListSkipOther(t, Role, User, u, [r]);
  }

  /** The channel extractor returns only the channel id of the cross-kind example. */
  lemma CrossKindChannel(t: string)
    requires t == "<@123> <@&456> <#789>"
    ensures GetChannelIdsFromMention(t) == One("789")
  {
    CrossKindMentions(t);
    var u, r, c := Match(0, "123", 6), Match(7, "456", 14), Match(15, "789", 21);
    assert [c][1..] == [];
    assert IsMatchList(Channel, t, 15, [c]);
    MatchListSkip(t, 8, 15, Channel, [c]);
    MatchListSkipOther(t, Channel, Role, r, [c]);
    MatchListSkip(t, 1, 7, Channel, [c]);
    MatchListSkipOther(t, Channel, User, u, [c]);
  }
}
