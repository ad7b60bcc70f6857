/** Which days of the week count as weekend days. The `WEEKEND_CONFIG`
    environment variable is a parameter here: `None` when it is unset. */
module WeekendConfig {
  import opened Wrappers

  /** Days are numbered as `Date.getDay()` numbers them: 0 is Sunday, 6 is Saturday. */
  datatype WeekendConfig = WeekendConfig(days: seq<int>, name: string, description: string)

  const TurkeyWeekend := WeekendConfig([0, 6], "Turkey", "Turkish weekend (Saturday-Sunday)")
  const FridaySaturdayWeekend := WeekendConfig([5, 6], "Friday-Saturday", "Friday-Saturday weekend")
  const GulfWeekend := WeekendConfig([4, 5, 6], "Gulf", "Gulf countries weekend (Thursday-Saturday)")
  const DefaultWeekend := TurkeyWeekend

  /** Every preset names at least one day, and only days of the week. */
  ghost predicate WellFormed(c: WeekendConfig) {
    |c.days| > 0 && forall i :: 0 <= i < |c.days| ==> 0 <= c.days[i] <= 6
  }

  /** `String.prototype.toUpperCase` on one character, for the characters whose
      upper case is a single character used in a preset name: ASCII letters,
      dotless i (U+0131, upper case I) and long s (U+017F, upper case S). */
  function UpperChar(c: char): (u: char)
    ensures 'a' <= c <= 'z' ==> u as int == c as int - 32
    ensures !('a' <= u <= 'z')
  {
    if 'a' <= c <= 'z' then (c as int - 32) as char
    else if c == '\U{0131}' then 'I'
    else if c == '\U{017F}' then 'S'
    else c
  }

  function ToUpperCase(s: string): (r: string)
    ensures |r| == |s|
    ensures forall i :: 0 <= i < |s| ==> r[i] == UpperChar(s[i])
  {
    seq(|s|, i requires 0 <= i < |s| => UpperChar(s[i]))
  }

  /** Upper-casing twice is upper-casing once. */
  lemma UpperCaseIdempotent(s: string)
    ensures ToUpperCase(ToUpperCase(s)) == ToUpperCase(s)
  {
    var u := ToUpperCase(s);
    forall i | 0 <= i < |s|
      ensures ToUpperCase(u)[i] == u[i]
    {
      assert UpperChar(u[i]) == u[i];
    }
  }

  /** `getWeekendConfig()`: an unset or empty variable means TURKEY; the name is
      compared after upper-casing; unknown names fall back to TURKEY. */
  function GetWeekendConfig(env: Option<string>): (c: WeekendConfig)
    ensures WellFormed(c)
    ensures c == TurkeyWeekend || c == FridaySaturdayWeekend || c == GulfWeekend
    ensures env == None ==> c == DefaultWeekend
  {
    var configName := if env.Some? && env.value != "" then env.value else "TURKEY";
    match ToUpperCase(configName)
    case "FRIDAY_SATURDAY" => FridaySaturdayWeekend
    case "GULF" => GulfWeekend
    case _ => TurkeyWeekend
  }

  /** `isWeekendDay(d)`: `d` is one of the selected configuration's days. */
  predicate IsWeekendDay(env: Option<string>, dayOfWeek: int) {
    dayOfWeek in GetWeekendConfig(env).days
  }

  /** Names are matched without regard to case: a name and its upper-case form
      select the same configuration. */
  lemma CaseInsensitiveSelection(name: string)
    ensures GetWeekendConfig(Some(name)) == GetWeekendConfig(Some(ToUpperCase(name)))
  {
    UpperCaseIdempotent(name);
  }

  /** What each preset name selects, whatever its case; every other name, an empty
      value and an unset variable select the Saturday-Sunday default. */
  lemma PresetSelection(name: string)
    ensures ToUpperCase(name) == "FRIDAY_SATURDAY" ==>
      forall d :: IsWeekendDay(Some(name), d) <==> d == 5 || d == 6
    ensures ToUpperCase(name) == "GULF" ==>
      forall d :: IsWeekendDay(Some(name), d) <==> 4 <= d <= 6
    ensures ToUpperCase(name) != "FRIDAY_SATURDAY" && ToUpperCase(name) != "GULF" ==>
      forall d :: IsWeekendDay(Some(name), d) <==> d == 0 || d == 6
    ensures forall d :: IsWeekendDay(None, d) <==> d == 0 || d == 6
  {
    if name == "" {
      assert ToUpperCase("TURKEY") == "TURKEY";
    }
  }
}
