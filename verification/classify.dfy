/** Region and theme classification of a source file by the tokens its name
    contains (`_extract_region`, `_extract_theme`). Matching is Python's
    case-sensitive `token in filename`. */
module Classify {
  import Text

  /** One classification rule: the category applies when the filename contains
      any of the tokens. */
  datatype Rule = Rule(tokens: seq<string>, category: string)

  predicate Matches(rule: Rule, filename: string) {
    exists i :: 0 <= i < |rule.tokens| && Text.Contains(filename, rule.tokens[i])
  }

  /** No rule before index `i` matches. */
  ghost predicate NoEarlierMatch(rules: seq<Rule>, filename: string, i: int) {
    forall j :: 0 <= j < i && j < |rules| ==> !Matches(rules[j], filename)
  }

  /** The label of the first rule that matches, `fallback` when none does. */
  function FirstMatch(rules: seq<Rule>, filename: string, fallback: string): (r: string)
    ensures r == fallback || exists i :: 0 <= i < |rules| && r == rules[i].category
  {
    if |rules| == 0 then fallback
    else if Matches(rules[0], filename) then rules[0].category
    else
      var r := FirstMatch(rules[1..], filename, fallback);
      assert forall i :: 1 <= i < |rules| ==> rules[1..][i - 1] == rules[i];
      r
  }

  /** With no rule matching, the fallback. */
  lemma {:induction false} FirstMatchNone(rules: seq<Rule>, filename: string, fallback: string)
    requires NoEarlierMatch(rules, filename, |rules|)
    ensures FirstMatch(rules, filename, fallback) == fallback
  {
    if |rules| > 0 {
      assert !Matches(rules[0], filename);
      assert NoEarlierMatch(rules[1..], filename, |rules| - 1) by {
        forall j | 0 <= j < |rules| - 1 ensures !Matches(rules[1..][j], filename) {
          assert rules[1..][j] == rules[j + 1];
        }
      }
      FirstMatchNone(rules[1..], filename, fallback);
    }
  }

  /** With rule `i` the first to match, its label. */
  lemma {:induction false} FirstMatchAt(rules: seq<Rule>, filename: string, fallback: string, i: nat)
    requires i < |rules| && Matches(rules[i], filename) && NoEarlierMatch(rules, filename, i)
    ensures FirstMatch(rules, filename, fallback) == rules[i].category
  {
    if i > 0 {
      assert !Matches(rules[0], filename);
      assert rules[1..][i - 1] == rules[i];
      assert NoEarlierMatch(rules[1..], filename, i - 1) by {
        forall j | 0 <= j < i - 1 ensures !Matches(rules[1..][j], filename) {
          assert rules[1..][j] == rules[j + 1];
        }
      }
      FirstMatchAt(rules[1..], filename, fallback, i - 1);
    }
  }

  /** Some rule matches exactly when a first one does. */
  lemma {:induction false} FirstMatchExists(rules: seq<Rule>, filename: string, n: nat)
    requires n <= |rules| && !NoEarlierMatch(rules, filename, n)
    ensures exists i :: 0 <= i < n && Matches(rules[i], filename) && NoEarlierMatch(rules, filename, i)
  {
    if NoEarlierMatch(rules, filename, n - 1) {
      assert Matches(rules[n - 1], filename);
    } else {
      FirstMatchExists(rules, filename, n - 1);
    }
  }

  // ---- regions ----------------------------------------------------------------

  /** `region_mapping`, in its insertion order. Two keys share a label. */
  const RegionRules: seq<Rule> := [
    Rule(["AKHI"], "Alaska/Hawaii"),
    Rule(["Appalachia"], "Appalachia/Central"),
    Rule(["CAWA"], "CA/WA/OR"),
    Rule(["Midwest"], "Midwest"),
    Rule(["MTN"], "Mountain West"),
    Rule(["Northeast"], "Northeast"),
    Rule(["Southern"], "Southern/Mid-Atlantic"),
    Rule(["MidAtlantic"], "Southern/Mid-Atlantic")
  ]

  const OtherRegion := "Other"

  const RegionLabels: set<string> := {
    "Alaska/Hawaii", "Appalachia/Central", "CA/WA/OR", "Midwest", "Mountain West",
    "Northeast", "Southern/Mid-Atlantic", OtherRegion
  }

  /** `_extract_region`: the label of the first mapping key, in insertion
      order, that occurs in the filename; `Other` when none does. */
  function ExtractRegion(filename: string): (r: string)
    ensures r in RegionLabels
  {
    RegionCategories();
    FirstMatch(RegionRules, filename, OtherRegion)
  }

  lemma RegionCategories()
    ensures forall i :: 0 <= i < |RegionRules| ==>
      RegionRules[i].category in RegionLabels && RegionRules[i].category != OtherRegion
  {
    forall i | 0 <= i < |RegionRules|
      ensures RegionRules[i].category in RegionLabels && RegionRules[i].category != OtherRegion
    {
      RegionCategory(i);
    }
  }

  lemma RegionCategory(i: nat)
    requires i < |RegionRules|
    ensures RegionRules[i].category in RegionLabels && RegionRules[i].category != OtherRegion
  {
  }

  /** The region is `Other` exactly when no key occurs in the name, and
      otherwise the label of the first key that does. */
  lemma RegionIsFirstMatch(filename: string)
    ensures ExtractRegion(filename) == OtherRegion <==> NoEarlierMatch(RegionRules, filename, |RegionRules|)
    ensures forall i ::
      (0 <= i < |RegionRules| && Matches(RegionRules[i], filename) && NoEarlierMatch(RegionRules, filename, i))
      ==> ExtractRegion(filename) == RegionRules[i].category
  {
    forall i | 0 <= i < |RegionRules| && Matches(RegionRules[i], filename) && NoEarlierMatch(RegionRules, filename, i)
      ensures ExtractRegion(filename) == RegionRules[i].category
    {
      FirstMatchAt(RegionRules, filename, OtherRegion, i);
    }
    if NoEarlierMatch(RegionRules, filename, |RegionRules|) {
      FirstMatchNone(RegionRules, filename, OtherRegion);
    } else {
      FirstMatchExists(RegionRules, filename, |RegionRules|);
      var i :| 0 <= i < |RegionRules| && Matches(RegionRules[i], filename) && NoEarlierMatch(RegionRules, filename, i);
      FirstMatchAt(RegionRules, filename, OtherRegion, i);
      RegionCategory(i);
    }
  }

  // ---- themes -----------------------------------------------------------------

  const GeneralTheme := "General"

  const ThemeLabels: set<string> := {
    "Legal Framework", "Emergency Management", "Vulnerable Populations",
    "Civil Rights/Equity", "FEMA/Risk Assessment", GeneralTheme
  }

  /** `_extract_theme`: the if/elif chain over pairs of tokens. */
  function ExtractTheme(filename: string): (r: string)
    ensures r in ThemeLabels
  {
    if Text.Contains(filename, "KeyStatutes") || Text.Contains(filename, "LocalAuthority") then
      "Legal Framework"
    else if Text.Contains(filename, "Emergency") || Text.Contains(filename, "Declaration") then
      "Emergency Management"
    else if Text.Contains(filename, "Vulnerable") || Text.Contains(filename, "Protection") then
      "Vulnerable Populations"
    else if Text.Contains(filename, "CivilRights") || Text.Contains(filename, "Equity") then
      "Civil Rights/Equity"
    else if Text.Contains(filename, "FEMA") || Text.Contains(filename, "Risk") then
      "FEMA/Risk Assessment"
    else
      GeneralTheme
  }

  /** The theme chain as an ordered rule table. */
  const ThemeRules: seq<Rule> := [
    Rule(["KeyStatutes", "LocalAuthority"], "Legal Framework"),
    Rule(["Emergency", "Declaration"], "Emergency Management"),
    Rule(["Vulnerable", "Protection"], "Vulnerable Populations"),
    Rule(["CivilRights", "Equity"], "Civil Rights/Equity"),
    Rule(["FEMA", "Risk"], "FEMA/Risk Assessment")
  ]

  lemma MatchesPair(a: string, b: string, category: string, filename: string)
    ensures Matches(Rule([a, b], category), filename) <==>
            Text.Contains(filename, a) || Text.Contains(filename, b)
  {
    var rule := Rule([a, b], category);
    if Text.Contains(filename, a) {
      assert rule.tokens[0] == a;
    }
    if Text.Contains(filename, b) {
      assert rule.tokens[1] == b;
    }
  }

  /** The if/elif chain is the table-driven first-match classification:
      replacing one by the other changes no result. */
  lemma ThemeIsFirstMatch(filename: string)
    ensures ExtractTheme(filename) == FirstMatch(ThemeRules, filename, GeneralTheme)
  {
    var m := seq(|ThemeRules|, i requires 0 <= i < |ThemeRules| => ThemeRuleMatches(filename, i));
    if m[0] {
      FirstMatchAt(ThemeRules, filename, GeneralTheme, 0);
    } else if m[1] {
      FirstMatchAt(ThemeRules, filename, GeneralTheme, 1);
    } else if m[2] {
      FirstMatchAt(ThemeRules, filename, GeneralTheme, 2);
    } else if m[3] {
      FirstMatchAt(ThemeRules, filename, GeneralTheme, 3);
    } else if m[4] {
      FirstMatchAt(ThemeRules, filename, GeneralTheme, 4);
    } else {
      FirstMatchNone(ThemeRules, filename, GeneralTheme);
    }
  }

  /** Whether theme rule `i` matches, by its two tokens. */
  function ThemeRuleMatches(filename: string, i: nat): (b: bool)
    requires i < |ThemeRules|
    ensures b <==> Matches(ThemeRules[i], filename)
  {
    var rule := ThemeRules[i];
    MatchesPair(rule.tokens[0], rule.tokens[1], rule.category, filename);
    Text.Contains(filename, rule.tokens[0]) || Text.Contains(filename, rule.tokens[1])
  }

  // ---- classifications of files of the original list ---------------------------

  /** A name without the capitals A, M, N and S has none of the region
      keys, so its region is `Other`. */
  lemma NoRegionCapitals(f: string)
    requires 'A' !in f && 'M' !in f && 'N' !in f && 'S' !in f
    ensures ExtractRegion(f) == OtherRegion
  {
    forall i | 0 <= i < |RegionRules| ensures !Matches(RegionRules[i], f) {
      RegionRuleHasCapital(i);
      Text.MissingCharExcludes(f, RegionRules[i].tokens[0], RegionCapitalAt(i));
    }
    FirstMatchNone(RegionRules, f, OtherRegion);
  }

  /** Where in each region key its distinguishing capital sits. */
  function RegionCapitalAt(i: nat): nat {
    if i == 2 then 1 else 0
  }

  lemma RegionRuleHasCapital(i: nat)
    requires i < |RegionRules|
    ensures RegionRules[i].tokens == [RegionRules[i].tokens[0]]
    ensures RegionCapitalAt(i) < |RegionRules[i].tokens[0]|
    ensures RegionRules[i].tokens[0][RegionCapitalAt(i)] in {'A', 'M', 'N', 'S'}
  {
  }

  /** A name without the capitals K, L, E, D, V, P and R has none of the
      theme tokens, so its theme is `General`. */
  lemma NoThemeCapitals(f: string)
    requires 'K' !in f && 'L' !in f && 'E' !in f && 'D' !in f
    requires 'V' !in f && 'P' !in f && 'R' !in f
    ensures ExtractTheme(f) == GeneralTheme
  {
    Text.MissingCharExcludes(f, "KeyStatutes", 0);
    Text.MissingCharExcludes(f, "LocalAuthority", 0);
    Text.MissingCharExcludes(f, "Emergency", 0);
    Text.MissingCharExcludes(f, "Declaration", 0);
    Text.MissingCharExcludes(f, "Vulnerable", 0);
    Text.MissingCharExcludes(f, "Protection", 0);
    Text.MissingCharExcludes(f, "CivilRights", 5);
    Text.MissingCharExcludes(f, "Equity", 0);
    Text.MissingCharExcludes(f, "FEMA", 1);
    Text.MissingCharExcludes(f, "Risk", 0);
  }

  lemma ComparisonFocusLacks(f: string, c: char)
    requires f == "ComparisonFocus.xlsx"
    requires c == 'A' || c == 'M' || c == 'N' || c == 'S' || c == 'K' || c == 'L'
          || c == 'E' || c == 'D' || c == 'V' || c == 'P' || c == 'R'
    ensures c !in f
  {
  }

  /** `ComparisonFocus.xlsx` contains none of the tokens: `Other` and
      `General`. */
  lemma ComparisonFocusIsUnclassified(f: string)
    requires f == "ComparisonFocus.xlsx"
    ensures ExtractRegion(f) == OtherRegion
    ensures ExtractTheme(f) == GeneralTheme
  {
    ComparisonFocusLacks(f, 'A');
    ComparisonFocusLacks(f, 'M');
    ComparisonFocusLacks(f, 'N');
    ComparisonFocusLacks(f, 'S');
    ComparisonFocusLacks(f, 'K');
    ComparisonFocusLacks(f, 'L');
    ComparisonFocusLacks(f, 'E');
    ComparisonFocusLacks(f, 'D');
    ComparisonFocusLacks(f, 'V');
    ComparisonFocusLacks(f, 'P');
    ComparisonFocusLacks(f, 'R');
    NoRegionCapitals(f);
    NoThemeCapitals(f);
  }

  /** `ProtectionAreaRiskWithoutFEMASupport.xlsx` is classified by its
      `Protection` token: the vulnerable-populations test comes before the
      FEMA/risk test. */
  lemma ProtectionBeatsFema(f: string)
    requires f == "ProtectionAreaRiskWithoutFEMASupport.xlsx"
    ensures ExtractTheme(f) == "Vulnerable Populations"
  {
    ProtectionAreaCapitals(f);
    NoEarlierThemeTokens(f);
    ProtectionAreaSplit(f);
    Text.ContainsInfix("", "Protection", "AreaRiskWithoutFEMASupport.xlsx");
  }

  lemma ProtectionAreaCapitals(f: string)
    requires f == "ProtectionAreaRiskWithoutFEMASupport.xlsx"
    ensures 'K' !in f && 'L' !in f && 'g' !in f && 'D' !in f
  {
    ProtectionAreaLacks(f, 'K');
    ProtectionAreaLacks(f, 'L');
    ProtectionAreaLacks(f, 'g');
    ProtectionAreaLacks(f, 'D');
  }

  lemma ProtectionAreaLacks(f: string, c: char)
    requires f == "ProtectionAreaRiskWithoutFEMASupport.xlsx"
    requires c == 'K' || c == 'L' || c == 'g' || c == 'D'
    ensures c !in f
  {
  }

  lemma ProtectionAreaSplit(f: string)
    requires f == "ProtectionAreaRiskWithoutFEMASupport.xlsx"
    ensures f == "" + "Protection" + "AreaRiskWithoutFEMASupport.xlsx"
  {
  }

  lemma NoEarlierThemeTokens(f: string)
    requires 'K' !in f && 'L' !in f && 'g' !in f && 'D' !in f
    ensures !Text.Contains(f, "KeyStatutes") && !Text.Contains(f, "LocalAuthority")
    ensures !Text.Contains(f, "Emergency") && !Text.Contains(f, "Declaration")
  {
    Text.MissingCharExcludes(f, "KeyStatutes", 0);
    Text.MissingCharExcludes(f, "LocalAuthority", 0);
    Text.MissingCharExcludes(f, "Emergency", 4);
    Text.MissingCharExcludes(f, "Declaration", 0);
  }

  /** A statutes file is `Legal Framework` whatever else its name mentions,
      `VulnerablePopulationsProtections` included. */
  lemma StatutesBeatVulnerable(prefix: string, suffix: string)
    ensures ExtractTheme(prefix + "KeyStatutes" + suffix) == "Legal Framework"
  {
    Text.ContainsInfix(prefix, "KeyStatutes", suffix);
  }
}
