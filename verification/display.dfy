/** The three classifiers App.tsx uses when rendering an analysis:
    `getTimeAgo`, `getWeatherIcon` and `getTrafficColor`. The clock is a
    parameter. */
module Display {
  import opened Wrappers
  import Text
  import GeminiService

  // ------------------------------------------------------------- time ago

  /** Dividing by 1000 and then by 60, rounding down both times, is
      dividing by 60000 once. */
  lemma FloorDivTwice(x: int)
    ensures (x / 1000) / 60 == x / 60000
  {
    var q := x / 60000;
    var rem := x % 60000;
    assert x == q * 60000 + rem && 0 <= rem < 60000;
    assert x / 1000 == q * 60 + rem / 1000;
  }

  /** `getTimeAgo(ts)` with `now` for `Date.now()`: whole elapsed seconds
      (rounded down) below one minute, otherwise whole elapsed minutes. */
  function TimeAgo(ts: int, now: int): (r: string)
    ensures now - ts < 60000 ==> r == Text.IntToString((now - ts) / 1000) + "s ago"
    ensures now - ts >= 60000 ==> r == Text.IntToString((now - ts) / 60000) + "m ago"
  {
    // Math.floor of a division by a positive constant is Dafny's `/`.
    var diff := (now - ts) / 1000;
    FloorDivTwice(now - ts);
    if diff < 60 then Text.IntToString(diff) + "s ago"
    else Text.IntToString(diff / 60) + "m ago"
  }

  /** A snapshot taken 59.999 s ago still reads in seconds. */
  lemma TimeAgoSecondsBoundary(ts: int)
    ensures TimeAgo(ts, ts + 59999) == "59s ago"
  {
    FiftyNineRendered();
  }

  /** A snapshot taken exactly a minute ago reads "1m ago". */
  lemma TimeAgoMinuteBoundary(ts: int)
    ensures TimeAgo(ts, ts + 60000) == "1m ago"
  {
    OneRendered();
  }

  lemma FiftyNineRendered()
    ensures Text.IntToString(59) == "59"
  {
  }

  lemma OneRendered()
    ensures Text.IntToString(1) == "1"
  {
  }

  // --------------------------------------------------------- weather icon

  datatype WeatherIcon = Spinner | Snowflake | Showers | Cloud | Bolt | Sun

  /** The Font Awesome classes rendered for each icon. */
  function IconClass(i: WeatherIcon): string {
    match i
    case Spinner => "fa-spinner fa-spin text-zinc-800"
    case Snowflake => "fa-snowflake text-blue-300"
    case Showers => "fa-cloud-showers-heavy text-indigo-400"
    case Cloud => "fa-cloud text-zinc-500"
    case Bolt => "fa-cloud-bolt text-yellow-400"
    case Sun => "fa-sun text-orange-400"
  }

  predicate Mentions(c: string, word: string) {
    Text.Contains(Text.ToLower(c), word)
  }

  predicate MentionsSnow(c: string) { Mentions(c, "snow") }
  predicate MentionsRain(c: string) { Mentions(c, "rain") || Mentions(c, "drizzle") || Mentions(c, "shower") }
  predicate MentionsCloud(c: string) { Mentions(c, "cloud") || Mentions(c, "overcast") }
  predicate MentionsStorm(c: string) { Mentions(c, "storm") || Mentions(c, "thunder") }

  /** `getWeatherIcon(condition)`: the first matching class in the order
      absent, snow, rain, cloud, storm wins; anything else is sunny. */
  function WeatherIconFor(condition: Option<string>): (r: WeatherIcon)
    ensures r == Spinner <==> !TruthyString(condition)
    ensures r == Snowflake <==> TruthyString(condition) && MentionsSnow(condition.value)
    ensures r == Showers <==>
              TruthyString(condition) && !MentionsSnow(condition.value) && MentionsRain(condition.value)
    ensures r == Cloud <==>
              && TruthyString(condition) && !MentionsSnow(condition.value) && !MentionsRain(condition.value)
              && MentionsCloud(condition.value)
    ensures r == Bolt <==>
              && TruthyString(condition) && !MentionsSnow(condition.value) && !MentionsRain(condition.value)
              && !MentionsCloud(condition.value) && MentionsStorm(condition.value)
    ensures r == Sun <==>
              && TruthyString(condition) && !MentionsSnow(condition.value) && !MentionsRain(condition.value)
              && !MentionsCloud(condition.value) && !MentionsStorm(condition.value)
  {
    if !TruthyString(condition) then Spinner
    else
      var c := condition.value;
      if MentionsSnow(c) then Snowflake
      else if MentionsRain(c) then Showers
      else if MentionsCloud(c) then Cloud
      else if MentionsStorm(c) then Bolt
      else Sun
  }

  /** The icon does not depend on letter case. */
  lemma WeatherIconIgnoresCase(c: string)
    ensures WeatherIconFor(Some(c)) == WeatherIconFor(Some(Text.ToLower(c)))
  {
    Text.ToLowerIdempotent(c);
  }

  /** `c` mentions `word` when its lower-case form has it at index `i`. */
  lemma MentionedAt(c: string, lower: string, word: string, i: int)
    requires Text.ToLower(c) == lower && Text.OccursAt(lower, word, i)
    ensures Mentions(c, word)
  {
    Text.ContainedAt(lower, word, i);
  }

  /** `c` does not mention `word` when its lower-case form lacks a letter of
      `word`. */
  lemma NotMentioned(c: string, lower: string, word: string, letter: char)
    requires Text.ToLower(c) == lower && letter in word && letter !in lower
    ensures !Mentions(c, word)
  {
    Text.MissingCharNotContained(lower, word, letter);
  }

  // The lower-case forms of the example conditions and statuses.

  lemma LightRainLowered()
    ensures Text.ToLower("Light Rain") == "light rain"
  {
  }

  lemma SnowShowersLowered()
    ensures Text.ToLower("Snow Showers") == "snow showers"
  {
  }

  lemma ModerateLowered()
    ensures Text.ToLower("Moderate") == "moderate"
  {
  }

  lemma CongestedLowered()
    ensures Text.ToLower("Congested") == "congested"
  {
  }

  lemma HeavyTrafficLowered()
    ensures Text.ToLower("Heavy Traffic") == "heavy traffic"
  {
  }

  /** Rain is recognised in any letter case. */
  lemma LightRainShowsShowers()
    ensures WeatherIconFor(Some("Light Rain")) == Showers
  {
    LightRainWithoutSnow();
    LightRainMentionsRain();
  }

  lemma LightRainWithoutSnow()
    ensures !MentionsSnow("Light Rain")
  {
    LightRainLowered();
    NotMentioned("Light Rain", "light rain", "snow", 'w');
  }

  lemma LightRainMentionsRain()
    ensures Mentions("Light Rain", "rain")
  {
    LightRainLowered();
    assert "light rain"[6..10] == "rain";
    MentionedAt("Light Rain", "light rain", "rain", 6);
  }

  /** Snow is checked before showers. */
  lemma SnowShowersShowSnow()
    ensures WeatherIconFor(Some("Snow Showers")) == Snowflake
  {
    SnowShowersMentionSnow();
  }

  lemma SnowShowersMentionSnow()
    ensures MentionsSnow("Snow Showers")
  {
    SnowShowersLowered();
    MentionedAt("Snow Showers", "snow showers", "snow", 0);
  }

  // -------------------------------------------------------- traffic colour

  datatype TrafficColor = Red | Yellow | Emerald

  /** The Tailwind classes rendered for each colour. */
  function ColorClass(t: TrafficColor): string {
    match t
    case Red => "text-red-500"
    case Yellow => "text-yellow-500"
    case Emerald => "text-emerald-500"
  }

  /** `getTrafficColor(status)`: an empty status reads as "clear"; gridlock
      or heavy traffic is red, moderate traffic yellow, anything else
      emerald. */
  function TrafficColorFor(status: string): (r: TrafficColor)
    ensures r == Red <==> status != "" && (Mentions(status, "gridlock") || Mentions(status, "heavy"))
    ensures r == Yellow <==>
              status != "" && !Mentions(status, "gridlock") && !Mentions(status, "heavy")
              && Mentions(status, "moderate")
    ensures status == "" ==> r == Emerald
  {
    var s := if status != "" then Text.ToLower(status) else "clear";
    Text.MissingCharNotContained("clear", "gridlock", 'g');
    Text.MissingCharNotContained("clear", "heavy", 'h');
    Text.MissingCharNotContained("clear", "moderate", 'm');
    if Text.Contains(s, "gridlock") || Text.Contains(s, "heavy") then Red
    else if Text.Contains(s, "moderate") then Yellow
    else Emerald
  }

  /** A traffic status the core path had to fill in shows yellow. */
  lemma FilledInStatusShowsYellow(s: Option<string>)
    requires GeminiService.IsUnknownStatus(s)
    ensures TrafficColorFor(GeminiService.NormalizeStatus(s).value) == Yellow
  {
    ModerateNotRed();
    ModerateMentionsModerate();
  }

  lemma ModerateNotRed()
    ensures !Mentions("Moderate", "gridlock") && !Mentions("Moderate", "heavy")
  {
    ModerateLowered();
    NotMentioned("Moderate", "moderate", "gridlock", 'g');
    NotMentioned("Moderate", "moderate", "heavy", 'h');
  }

  lemma ModerateMentionsModerate()
    ensures Mentions("Moderate", "moderate")
  {
    ModerateLowered();
    MentionedAt("Moderate", "moderate", "moderate", 0);
  }

  /** The statuses types.ts declares besides "Moderate", "Gridlock" and
      "Heavy Traffic" contain none of the three words and show emerald,
      congested traffic included. */
  lemma CongestedShowsEmerald()
    ensures TrafficColorFor("Congested") == Emerald
  {
    CongestedNotRed();
    CongestedNotModerate();
  }

  lemma CongestedNotRed()
    ensures !Mentions("Congested", "gridlock") && !Mentions("Congested", "heavy")
  {
    CongestedLowered();
    NotMentioned("Congested", "congested", "gridlock", 'l');
    NotMentioned("Congested", "congested", "heavy", 'h');
  }

  lemma CongestedNotModerate()
    ensures !Mentions("Congested", "moderate")
  {
    CongestedLowered();
    NotMentioned("Congested", "congested", "moderate", 'm');
  }

  /** Heavy traffic shows red. */
  lemma HeavyTrafficShowsRed()
    ensures TrafficColorFor("Heavy Traffic") == Red
  {
    HeavyTrafficMentionsHeavy();
  }

  lemma HeavyTrafficMentionsHeavy()
    ensures Mentions("Heavy Traffic", "heavy")
  {
    HeavyTrafficLowered();
    MentionedAt("Heavy Traffic", "heavy traffic", "heavy", 0);
  }
}
