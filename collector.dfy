/**
  The two keyword classifiers of the collector: `categorizeContent`, an ordered
  rule list whose first matching rule names the sub-category, and
  `analyzeType`, which labels a post with every behaviour type whose keywords
  it mentions. Both read one text: the title and the description joined by a
  single space and lower-cased.
 */
module Collector {
  import opened Text

  // Labels, as the collector stores them.
  const TeamProject: string := "팀플"

  const FreeRiderLabel: string := "무임승차형"
  const LeaderLabel: string := "주도형"
  const PlannerLabel: string := "플래너형"
  const CooperatorLabel: string := "협력형"
  const OverworkerLabel: string := "과도헌신형"
  const ConflictLabel: string := "갈등형"
  const OtherLabel: string := "기타"

  // Keywords of the four sub-category rules, in the order they are tried.
  const FreeRiderWords: seq<string> := ["무임승차", "프리라이더"]
  const LeaderWords: seq<string> := ["조장", "리더"]
  const DivisionWords: seq<string> := ["역할분담", "계획"]
  const TeamworkWords: seq<string> := ["협업", "팀워크"]

  // Keywords of the four behaviour-type groups, in declaration order.
  const SlackingWords: seq<string> := ["무임승차", "안 함", "안함"]
  const SoloWords: seq<string> := ["혼자", "다 했", "다했"]
  const ScheduleWords: seq<string> := ["계획", "일정", "플래너"]
  const ConflictWords: seq<string> := ["갈등", "싸움", "의견충돌"]

  /** The result of `categorizeContent`. */
  datatype Category = Category(main: string, sub: string)

  /** One entry `{type, confidence}` of the list `analyzeType` returns. */
  datatype TypeScore = TypeScore(kind: string, confidence: int)

  /** A sub-category rule: the sub-category it assigns when any of its keywords occurs. */
  datatype Rule = Rule(keywords: seq<string>, sub: string)

  /** A behaviour-type group: the entry it contributes when any of its keywords occurs. */
  datatype TypeGroup = TypeGroup(keywords: seq<string>, kind: string, confidence: int)
  {
    function Score(): TypeScore
    {
      TypeScore(kind, confidence)
    }
  }

  const CategoryRules: seq<Rule> := [
    Rule(FreeRiderWords, FreeRiderLabel),
    Rule(LeaderWords, LeaderLabel),
    Rule(DivisionWords, PlannerLabel),
    Rule(TeamworkWords, CooperatorLabel)
  ]

  const TypeGroups: seq<TypeGroup> := [
    TypeGroup(SlackingWords, FreeRiderLabel, 85),
    TypeGroup(SoloWords, OverworkerLabel, 75),
    TypeGroup(ScheduleWords, PlannerLabel, 70),
    TypeGroup(ConflictWords, ConflictLabel, 80)
  ]

  /** The single entry `analyzeType` returns when no group matches. */
  const Fallback: TypeScore := TypeScore(OtherLabel, 50)

  /** Every entry `analyzeType` can produce. */
  const AllScores: seq<TypeScore> := [
    TypeScore(FreeRiderLabel, 85),
    TypeScore(OverworkerLabel, 75),
    TypeScore(PlannerLabel, 70),
    TypeScore(ConflictLabel, 80),
    Fallback
  ]

  /** Position of a behaviour-type label in declaration order; the fallback comes last. */
  function TypeRank(kind: string): (rank: nat)
  {
    if kind == FreeRiderLabel then 0
    else if kind == OverworkerLabel then 1
    else if kind == PlannerLabel then 2
    else if kind == ConflictLabel then 3
    else 4
  }

  /** Some keyword of `words` occurs in `text`. */
  ghost predicate MentionsAny(text: string, words: seq<string>)
  {
    exists w :: w in words && Contains(text, w)
  }

  /** `text.includes(w1) || text.includes(w2) || ...`, tried left to right. */
  function IncludesAny(text: string, words: seq<string>): (found: bool)
    ensures found <==> MentionsAny(text, words)
  {
    if words == [] then false
    else if Includes(text, words[0]) then true
    else
      var rest := IncludesAny(text, words[1..]);
      assert MentionsAny(text, words) ==> MentionsAny(text, words[1..]) by {
        if MentionsAny(text, words) {
          var w :| w in words && Contains(text, w);
          assert w != words[0];
          assert w in words[1..];
        }
      }
      rest
  }

  /** `(title + ' ' + description).toLowerCase()` */
  function JoinedText(title: string, description: string): (text: string)
  {
    Lower(title + " " + description)
  }

  /**
    A keyword without ASCII letters that occurs in the title or in the
    description also occurs in the joined, lower-cased text.
   */
  lemma JoinedTextSeesBothFields(title: string, description: string, needle: string)
    requires forall j :: 0 <= j < |needle| ==> NotAsciiLetter(needle[j])
    ensures Contains(title, needle) || Contains(description, needle) ==>
      Contains(JoinedText(title, description), needle)
  {
    var joined := title + " " + description;
    LoweringKeepsNonLetterMatches(joined, needle);
    if Contains(title, needle) {
      var i :| OccursAt(title, needle, i);
      assert joined[i..i + |needle|] == title[i..i + |needle|];
      assert OccursAt(joined, needle, i);
    }
    if Contains(description, needle) {
      var i :| OccursAt(description, needle, i);
      var k := |title| + 1 + i;
      assert joined[k..k + |needle|] == description[i..i + |needle|];
      assert OccursAt(joined, needle, k);
    }
  }

  /**
    `categorizeContent`: the first of the four rules whose keywords occur in
    the joined text decides the sub-category; with none, the sub-category is
    the fallback. The main category is always the team project.
   */
  function CategorizeContent(title: string, description: string): (c: Category)
    ensures c.main == TeamProject
    ensures var text := JoinedText(title, description);
      && (c.sub == FreeRiderLabel <==> MentionsAny(text, FreeRiderWords))
      && (c.sub == LeaderLabel <==>
            !MentionsAny(text, FreeRiderWords) && MentionsAny(text, LeaderWords))
      && (c.sub == PlannerLabel <==>
            !MentionsAny(text, FreeRiderWords) && !MentionsAny(text, LeaderWords)
            && MentionsAny(text, DivisionWords))
      && (c.sub == CooperatorLabel <==>
            !MentionsAny(text, FreeRiderWords) && !MentionsAny(text, LeaderWords)
            && !MentionsAny(text, DivisionWords) && MentionsAny(text, TeamworkWords))
    ensures c.sub == OtherLabel <==>
      forall r :: r in CategoryRules ==> !MentionsAny(JoinedText(title, description), r.keywords)
  {
    var text := JoinedText(title, description);
    if IncludesAny(text, FreeRiderWords) then Category(TeamProject, FreeRiderLabel)
    else if IncludesAny(text, LeaderWords) then Category(TeamProject, LeaderLabel)
    else if IncludesAny(text, DivisionWords) then Category(TeamProject, PlannerLabel)
    else if IncludesAny(text, TeamworkWords) then Category(TeamProject, CooperatorLabel)
    else Category(TeamProject, OtherLabel)
  }

  /**
    Reference reading of an ordered rule list: the sub-category of the first rule
    that matches, else the fallback.
   */
  ghost function FirstMatch(rules: seq<Rule>, text: string, fallback: string): (sub: string)
    ensures
      || (sub == fallback && forall r :: r in rules ==> !MentionsAny(text, r.keywords))
      || exists i :: 0 <= i < |rules| && sub == rules[i].sub && MentionsAny(text, rules[i].keywords)
           && forall j :: 0 <= j < i ==> !MentionsAny(text, rules[j].keywords)
  {
    if rules == [] then fallback
    else if MentionsAny(text, rules[0].keywords) then
      rules[0].sub
    else
      var sub := FirstMatch(rules[1..], text, fallback);
      assert
        || (sub == fallback && forall r :: r in rules ==> !MentionsAny(text, r.keywords))
        || exists i :: 0 <= i < |rules| && sub == rules[i].sub && MentionsAny(text, rules[i].keywords)
             && forall j :: 0 <= j < i ==> !MentionsAny(text, rules[j].keywords)
      by {
        if sub == fallback && forall r :: r in rules[1..] ==> !MentionsAny(text, r.keywords) {
          forall r | r in rules ensures !MentionsAny(text, r.keywords) {
            if r != rules[0] {
              assert r in rules[1..];
            }
          }
        } else {
          var i :| 0 <= i < |rules[1..]| && sub == rules[1..][i].sub
            && MentionsAny(text, rules[1..][i].keywords)
            && forall j :: 0 <= j < i ==> !MentionsAny(text, rules[1..][j].keywords);
          forall j | 0 <= j < i + 1 ensures !MentionsAny(text, rules[j].keywords) {
            if j > 0 {
              assert rules[j] == rules[1..][j - 1];
            }
          }
        }
      }
      sub
  }

  /**
    `categorizeContent` is the first-match reading of its rule table, with
    the fallback `기타`.
   */
  lemma {:induction false} CategorizeIsFirstMatch(title: string, description: string)
    ensures CategorizeContent(title, description)
      == Category(TeamProject, FirstMatch(CategoryRules, JoinedText(title, description), OtherLabel))
  {
    var text := JoinedText(title, description);
    var rules := CategoryRules;
    assert rules[1..] == [rules[1], rules[2], rules[3]];
    assert rules[1..][1..] == [rules[2], rules[3]];
    assert rules[1..][1..][1..] == [rules[3]];
    assert rules[1..][1..][1..][1..] == [];
    if !MentionsAny(text, FreeRiderWords) && !MentionsAny(text, LeaderWords) {
      assert FirstMatch(rules, text, OtherLabel) == FirstMatch(rules[1..][1..], text, OtherLabel);
    }
  }

  /**
    First match wins, whichever field carries the keyword: a free-rider
    keyword in the title or in the description makes the sub-category
    `무임승차형`, whatever keywords of later rules occur as well.
   */
  lemma FreeRiderWordInEitherField(title: string, description: string, w: string)
    requires w in FreeRiderWords
    requires Contains(title, w) || Contains(description, w)
    ensures CategorizeContent(title, description).sub == FreeRiderLabel
  {
    JoinedTextSeesBothFields(title, description, w);
  }

  /**
    The entries a table of behaviour-type groups contributes to a text: one
    per matching group, in table order. Built from the back, the way the
    collector appends to its list.
   */
  ghost function Matches(groups: seq<TypeGroup>, text: string): (entries: seq<TypeScore>)
  {
    if groups == [] then []
    else
      var last := groups[|groups| - 1];
      Matches(groups[..|groups| - 1], text)
        + (if MentionsAny(text, last.keywords) then [last.Score()] else [])
  }

  /** Every entry comes from a group of the table whose keywords occur. */
  lemma {:induction false} MatchesSound(groups: seq<TypeGroup>, text: string)
    ensures |Matches(groups, text)| <= |groups|
    ensures forall e :: e in Matches(groups, text) ==>
      exists g :: g in groups && e == g.Score() && MentionsAny(text, g.keywords)
  {
    if groups != [] {
      var front := groups[..|groups| - 1];
      MatchesSound(front, text);
      forall e | e in Matches(groups, text)
        ensures exists g :: g in groups && e == g.Score() && MentionsAny(text, g.keywords)
      {
        if e in Matches(front, text) {
          var g :| g in front && e == g.Score() && MentionsAny(text, g.keywords);
          assert g in groups;
        } else {
          assert groups[|groups| - 1] in groups;
        }
      }
    }
  }

  /** Every group of the table whose keywords occur contributes its entry. */
  lemma {:induction false} MatchesComplete(groups: seq<TypeGroup>, text: string)
    ensures forall g :: g in groups && MentionsAny(text, g.keywords) ==> g.Score() in Matches(groups, text)
  {
    if groups != [] {
      var front := groups[..|groups| - 1];
      MatchesComplete(front, text);
      forall g | g in groups && MentionsAny(text, g.keywords)
        ensures g.Score() in Matches(groups, text)
      {
        if g != groups[|groups| - 1] {
          assert g in front;
        }
      }
    }
  }

  /** A table listed in rank order yields its entries in rank order. */
  lemma {:induction false} MatchesInOrder(groups: seq<TypeGroup>, text: string)
    requires forall i, j :: 0 <= i < j < |groups| ==> TypeRank(groups[i].kind) < TypeRank(groups[j].kind)
    ensures forall i, j :: 0 <= i < j < |Matches(groups, text)| ==>
      TypeRank(Matches(groups, text)[i].kind) < TypeRank(Matches(groups, text)[j].kind)
  {
    if groups != [] {
      var front := groups[..|groups| - 1];
      var last := groups[|groups| - 1];
      MatchesInOrder(front, text);
      MatchesSound(front, text);
      var m' := Matches(front, text);
      forall k | 0 <= k < |m'| ensures TypeRank(m'[k].kind) < TypeRank(last.kind) {
        assert m'[k] in m';
        var g :| g in front && m'[k] == g.Score() && MentionsAny(text, g.keywords);
        var i :| 0 <= i < |front| && front[i] == g;
      }
    }
  }

  /**
    What `analyzeType` returns for a joined text: the entries of the matching
    groups, or the single fallback entry when there are none.
   */
  ghost function Analysis(text: string): (types: seq<TypeScore>)
  {
    var matched := Matches(TypeGroups, text);
    if matched == [] then [Fallback] else matched
  }

  /** No entry of a group is the fallback entry. */
  lemma FallbackIsNotMatched(text: string)
    ensures Fallback !in Matches(TypeGroups, text)
  {
    MatchesSound(TypeGroups, text);
  }

  /**
    The list is never empty and has at most one entry per group; every entry
    is one of the five fixed label/confidence pairs, so confidences lie in
    [50, 85] and only the free-rider and conflict types reach 80.
   */
  lemma AnalysisBounds(text: string)
    ensures var types := Analysis(text);
      && 1 <= |types| <= |TypeGroups|
      && (forall e :: e in types ==> e in AllScores)
      && (forall e :: e in types ==> 50 <= e.confidence <= 85)
      && (forall e :: e in types && e.confidence >= 80 ==> e.kind == FreeRiderLabel || e.kind == ConflictLabel)
  {
    MatchesSound(TypeGroups, text);
  }

  /** A group's entry is in the list exactly when one of its keywords occurs in the text. */
  lemma AnalysisMembership(text: string)
    ensures forall g :: g in TypeGroups ==> (g.Score() in Analysis(text) <==> MentionsAny(text, g.keywords))
  {
    MatchesSound(TypeGroups, text);
    MatchesComplete(TypeGroups, text);
    FallbackIsNotMatched(text);
  }

  /** Entries keep declaration order, so no label appears twice. */
  lemma AnalysisOrder(text: string)
    ensures var types := Analysis(text);
      && (forall i, j :: 0 <= i < j < |types| ==> TypeRank(types[i].kind) < TypeRank(types[j].kind))
      && (forall i, j :: 0 <= i < j < |types| ==> types[i].kind != types[j].kind)
  {
    MatchesInOrder(TypeGroups, text);
    var matched := Matches(TypeGroups, text);
    assert Analysis(text) == if matched == [] then [Fallback] else matched;
  }

  /**
    The fallback entry `기타`/50 is the whole list exactly when no group
    matched, and `기타` appears nowhere otherwise.
   */
  lemma AnalysisFallback(text: string)
    ensures var types := Analysis(text);
      && (types == [Fallback] <==> forall g :: g in TypeGroups ==> !MentionsAny(text, g.keywords))
      && (types != [Fallback] ==> forall e :: e in types ==> e.kind != OtherLabel)
  {
    MatchesSound(TypeGroups, text);
    MatchesComplete(TypeGroups, text);
    FallbackIsNotMatched(text);
    var matched := Matches(TypeGroups, text);
    if matched != [] {
      assert matched[0] in matched;
    }
  }

  /**
    `analyzeType`: appends the entry of each group whose keywords occur in
    the joined text, in declaration order, and falls back to `기타`/50 when
    the list stayed empty.
   */
  method AnalyzeType(title: string, description: string) returns (types: seq<TypeScore>)
    ensures types == Analysis(JoinedText(title, description))
  {
    var text := JoinedText(title, description);
    types := [];
    if IncludesAny(text, SlackingWords) {
      types := types + [TypeScore(FreeRiderLabel, 85)];
    }
    assert TypeGroups[..1] == [TypeGroups[0]];
    assert types == Matches(TypeGroups[..1], text);
    if IncludesAny(text, SoloWords) {
      types := types + [TypeScore(OverworkerLabel, 75)];
    }
    assert TypeGroups[..2][..1] == TypeGroups[..1];
    assert types == Matches(TypeGroups[..2], text);
    if IncludesAny(text, ScheduleWords) {
      types := types + [TypeScore(PlannerLabel, 70)];
    }
    assert TypeGroups[..3][..2] == TypeGroups[..2];
    assert types == Matches(TypeGroups[..3], text);
    if IncludesAny(text, ConflictWords) {
      types := types + [TypeScore(ConflictLabel, 80)];
    }
    assert TypeGroups[..3] == TypeGroups[..|TypeGroups| - 1];
    assert types == Matches(TypeGroups, text);
    if |types| == 0 {
      types := [Fallback];
    }
  }

  /**
    Matching runs on the joined text, so a keyword with a space can straddle
    the two fields: neither "팀원이 안" nor "함" contains "안 함", yet the post
    is labelled a free rider.
   */
  lemma KeywordSpansBothFields()
    ensures !Contains("팀원이 안", "안 함") && !Contains("함", "안 함")
    ensures MentionsAny(JoinedText("팀원이 안", "함"), SlackingWords)
    ensures TypeScore(FreeRiderLabel, 85) in Analysis(JoinedText("팀원이 안", "함"))
  {
    var title, needle := "팀원이 안", "안 함";
    assert forall i :: OccursAt(title, needle, i) ==> title[i..i + |needle|][0] == title[i] == '안';
    assert forall i :: !OccursAt(title, needle, i);
    var text := JoinedText(title, "함");
    assert text == "팀원이 안 함";
    assert text[4..7] == needle;
    assert OccursAt(text, needle, 4);
    assert needle in SlackingWords;
    assert TypeGroups[0] in TypeGroups;
    AnalysisMembership(text);
  }

  /**
    Keywords are plain substrings with no word boundaries: "편안함"
    (comfortable) contains "안함" (did not do it), so a post saying the mood
    was comfortable is labelled a free rider.
   */
  lemma KeywordMatchesInsideWords()
    ensures TypeScore(FreeRiderLabel, 85) in Analysis(JoinedText("분위기가 편안함", ""))
  {
    var text := JoinedText("분위기가 편안함", "");
    assert text == "분위기가 편안함 ";
    assert text[6..8] == "안함";
    assert OccursAt(text, "안함", 6);
    assert "안함" in SlackingWords;
    assert TypeGroups[0] in TypeGroups;
    AnalysisMembership(text);
  }
}
