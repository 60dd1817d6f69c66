/**
 * The values a repository card and the repository detail view derive from
 * a record: the "last updated" label, the shortened description, the topic
 * chips, the language colour and the activity level.
 */
module Card {
  import opened Records
  import Text

  /** The buckets of the "last updated" label; beyond four weeks a short locale date is shown. */
  datatype UpdatedLabel = Today | Yesterday | DaysAgo(days: nat) | WeeksAgo(weeks: nat) | ShortDate

  /** The card measures the distance between now and the update in either direction. */
  function CardDiffDays(now: int, updatedAt: int): (d: nat)
    ensures d * MsPerDay <= Abs(now - updatedAt) < (d + 1) * MsPerDay
  {
    Abs(now - updatedAt) / MsPerDay
  }

  function LabelFor(diffDays: nat): (l: UpdatedLabel)
    ensures l == Today <==> diffDays == 0
    ensures l == Yesterday <==> diffDays == 1
    ensures l.DaysAgo? <==> 2 <= diffDays < 7
    ensures l.DaysAgo? ==> l.days == diffDays
    ensures l.WeeksAgo? <==> 7 <= diffDays < 30
    ensures l.WeeksAgo? ==> 1 <= l.weeks <= 4 && 7 * l.weeks <= diffDays < 7 * l.weeks + 7
    ensures l == ShortDate <==> diffDays >= 30
  {
    if diffDays == 0 then Today
    else if diffDays == 1 then Yesterday
    else if diffDays < 7 then DaysAgo(diffDays)
    else if diffDays < 30 then WeeksAgo(diffDays / 7)
    else ShortDate
  }

  /** The label of a card at time `now` for a repository updated at `updatedAt`. */
  function CardLabel(now: int, updatedAt: int): UpdatedLabel {
    LabelFor(CardDiffDays(now, updatedAt))
  }

  /**
   * Over timestamps: "Today" within 24 hours of now in either direction,
   * "Yesterday" from 24 up to 48 hours, a date from 30 whole days on, and a
   * future update labelled as a past one at the same distance.
   */
  lemma CardLabelFacts(now: int, updatedAt: int)
    ensures CardLabel(now, updatedAt) == CardLabel(updatedAt, now)
    ensures CardLabel(now, updatedAt) == Today <==> Abs(now - updatedAt) < MsPerDay
    ensures CardLabel(now, updatedAt) == Yesterday <==> MsPerDay <= Abs(now - updatedAt) < 2 * MsPerDay
    ensures CardLabel(now, updatedAt) == ShortDate <==> Abs(now - updatedAt) >= 30 * MsPerDay
  {
    var d := CardDiffDays(now, updatedAt);
    var a := Abs(now - updatedAt);
    assert d == 0 <==> a < MsPerDay;
    assert d == 1 <==> MsPerDay <= a < 2 * MsPerDay;
    assert d >= 30 ==> a >= 30 * MsPerDay by {
      if d >= 30 {
        assert d * MsPerDay >= 30 * MsPerDay;
      }
    }
    assert d < 30 ==> a < 30 * MsPerDay by {
      if d < 30 {
        assert (d + 1) * MsPerDay <= 30 * MsPerDay;
      }
    }
  }

  function LabelRank(l: UpdatedLabel): nat {
    match l
    case Today => 0
    case Yesterday => 1
    case DaysAgo(_) => 2
    case WeeksAgo(_) => 3
    case ShortDate => 4
  }

  /** An older update never gets a more recent-sounding label. */
  lemma LabelMonotone(a: nat, b: nat)
    requires a <= b
    ensures LabelRank(LabelFor(a)) <= LabelRank(LabelFor(b))
    ensures LabelFor(a).WeeksAgo? && LabelFor(b).WeeksAgo? ==> LabelFor(a).weeks <= LabelFor(b).weeks
  {
  }

  /** The text of a relative label; None for the locale date, which is not modelled. */
  function LabelText(l: UpdatedLabel): Option<string> {
    match l
    case Today => Some("Today")
    case Yesterday => Some("Yesterday")
    case DaysAgo(d) => Some(Text.Decimal(d) + " days ago")
    case WeeksAgo(w) => Some(Text.Decimal(w) + " weeks ago")
    case ShortDate => None
  }

  /** The labels for an update today, ten days ago and forty days ago. */
  lemma LabelExamples()
    ensures LabelText(LabelFor(0)) == Some("Today")
    ensures LabelText(LabelFor(10)) == Some("1 weeks ago")
    ensures LabelFor(40) == ShortDate
  {
    assert LabelFor(10) == WeeksAgo(1);
    assert Text.DigitChar(1) == '1';
    assert Text.Decimal(1) == "1";
    assert "1" + " weeks ago" == "1 weeks ago";
  }

  const DescriptionLimit: nat := 120
  const NoDescription: string := "No description provided"

  /** The card's description: a placeholder when there is none, cut to 120 characters with "..." beyond that. */
  function CardDescription(desc: string): (r: string)
    ensures desc == "" ==> r == NoDescription
    ensures desc != "" ==> desc[..Min(|desc|, DescriptionLimit)] <= r
    ensures |r| <= DescriptionLimit + 3
    ensures desc != "" && |desc| <= DescriptionLimit ==> r == desc
    ensures desc != "" && |desc| > DescriptionLimit ==> r[DescriptionLimit..] == "..."
  {
    if desc == "" then NoDescription
    else if |desc| > DescriptionLimit then desc[..DescriptionLimit] + "..."
    else desc
  }

  const ShownTopics: nat := 3

  /** The topic chips of a card: the first topics, and the count on the "+N" chip (0 when there is none). */
  datatype TopicChips = TopicChips(shown: seq<string>, overflow: nat)

  /** None when the card has no topic block. */
  function CardTopics(topics: seq<string>): (t: Option<TopicChips>)
    ensures t.None? <==> topics == []
    ensures t.Some? ==> t.value.shown <= topics && |t.value.shown| + t.value.overflow == |topics|
    ensures t.Some? ==> |t.value.shown| <= ShownTopics && (t.value.overflow > 0 ==> |t.value.shown| == ShownTopics)
  {
    if topics == [] then None
    else
      var shown := topics[..Min(ShownTopics, |topics|)];
      Some(TopicChips(shown, if |topics| > ShownTopics then |topics| - ShownTopics else 0))
  }

  /** The colour used for a language the table does not know, or for none. */
  const FallbackColor: string := "#8b5cf6"

  const Palette: map<string, string> := map[
    "JavaScript" := "#f1e05a",
    "TypeScript" := "#2b7489",
    "Python" := "#3572A5",
    "Java" := "#b07219",
    "C++" := "#f34b7d",
    "C#" := "#178600",
    "PHP" := "#4F5D95",
    "Ruby" := "#701516",
    "CSS" := "#563d7c",
    "HTML" := "#e34c26",
    "Go" := "#00ADD8",
    "Shell" := "#89e051",
    "Vue" := "#2c3e50",
    "React" := "#61dafb",
    "Swift" := "#ffac45"
  ]

  /** getLanguageColor. */
  function LanguageColor(language: string): (c: string)
    ensures language in Palette ==> c == Palette[language]
    ensures c == FallbackColor <==> language !in Palette
    ensures c in Palette.Values || c == FallbackColor
  {
    if language == "" then FallbackColor
    else if language in Palette then Palette[language]
    else FallbackColor
  }

  /** The activity level of the detail view. */
  datatype Activity = High | Medium | Low

  function ActivityRank(a: Activity): nat {
    match a
    case High => 2
    case Medium => 1
    case Low => 0
  }

  /** High below a week since the update, Medium below 30 days, Low otherwise. */
  function ActivityLevel(daysSinceUpdate: int): (a: Activity)
    ensures a == High <==> daysSinceUpdate < 7
    ensures a == Low <==> daysSinceUpdate >= 30
  {
    if daysSinceUpdate < 7 then High else if daysSinceUpdate < 30 then Medium else Low
  }

  /** The detail view measures days since the update without `Math.abs`. */
  function ModalActivity(now: int, updatedAt: int): (a: Activity)
    ensures a == High <==> now - updatedAt < 7 * MsPerDay
    ensures a == Low <==> now - updatedAt >= 30 * MsPerDay
  {
    ActivityLevel(DaysSince(now, updatedAt))
  }

  /** A more recent update never shows a lower activity level. */
  lemma ActivityMonotone(now: int, u1: int, u2: int)
    requires u1 <= u2
    ensures ActivityRank(ModalActivity(now, u1)) <= ActivityRank(ModalActivity(now, u2))
  {
    assert DaysSince(now, u2) <= DaysSince(now, u1) by {
      DivMonotone(now - u2, now - u1);
    }
  }

  lemma DivMonotone(a: int, b: int)
    requires a <= b
    ensures a / MsPerDay <= b / MsPerDay
  {
  }
}
