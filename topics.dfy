/**
 Topic tagging: `detect_topics`. Each subject has an ordered list of topics, each
 with keywords; a topic is detected when one of its keywords occurs in the
 lower-cased text.
 */
module Topics {
  import opened Wrappers
  import opened Text

  /** One `(topic, [keywords])` pair of a subject's list. */
  datatype TopicRule = TopicRule(topic: string, keywords: seq<string>)

  /** The `topic_keywords` dict: subject name to its topic rules, in insertion order. */
  type KeywordTable = seq<(string, seq<TopicRule>)>

  const MathematicsTopics: seq<TopicRule> := [
    TopicRule("algebra", ["algebra", "equation", "polynomial", "factori", "quadratic"]),
    TopicRule("geometry", ["geometry", "triangle", "circle", "angle", "polygon", "theorem"]),
    TopicRule("trigonometry", ["trigonometry", "sine", "cosine", "tangent", "pythagor"]),
    TopicRule("statistics", ["statistics", "mean", "median", "mode", "probability", "data"]),
    TopicRule("calculus", ["calculus", "differentiat", "integrat", "derivative"]),
    TopicRule("sets", ["sets", "venn diagram", "union", "intersection"]),
    TopicRule("functions", ["function", "domain", "range", "mapping"]),
    TopicRule("vectors", ["vector", "scalar", "magnitude", "direction"]),
    TopicRule("matrices", ["matrix", "matrices", "determinant"]),
    TopicRule("mensuration", ["area", "volume", "surface area", "perimeter"])
  ]

  const BiologyTopics: seq<TopicRule> := [
    TopicRule("cells", ["cell", "membrane", "nucleus", "mitochondri", "cytoplasm"]),
    TopicRule("genetics", ["gene", "dna", "chromosome", "heredit", "mutation"]),
    TopicRule("ecology", ["ecology", "ecosystem", "food chain", "habitat", "biodiversity"]),
    TopicRule("human biology", ["human body", "organ", "digest", "circulat", "respir"]),
    TopicRule("plant biology", ["photosynthesis", "plant", "chlorophyll", "transpir"]),
    TopicRule("evolution", ["evolution", "natural selection", "adaptation", "species"])
  ]

  const ChemistryTopics: seq<TopicRule> := [
    TopicRule("atomic structure", ["atom", "electron", "proton", "neutron", "isotope"]),
    TopicRule("bonding", ["bond", "ionic", "covalent", "metallic"]),
    TopicRule("reactions", ["reaction", "equation", "product", "reactant"]),
    TopicRule("acids and bases", ["acid", "base", "ph", "neutrali"]),
    TopicRule("organic chemistry", ["organic", "hydrocarbon", "alkane", "alkene"]),
    TopicRule("electrochemistry", ["electrolysis", "electrode", "electrolyte"])
  ]

  const PhysicsTopics: seq<TopicRule> := [
    TopicRule("mechanics", ["force", "motion", "velocity", "acceleration", "momentum"]),
    TopicRule("waves", ["wave", "frequency", "wavelength", "sound", "light"]),
    TopicRule("electricity", ["electric", "current", "voltage", "resistance", "circuit"]),
    TopicRule("magnetism", ["magnet", "magnetic field", "electromagnet"]),
    TopicRule("heat", ["heat", "temperature", "thermal", "conduction", "convection"]),
    TopicRule("energy", ["energy", "kinetic", "potential", "conservation"])
  ]

  const TopicKeywords: KeywordTable := [
    ("Mathematics", MathematicsTopics),
    ("Biology", BiologyTopics),
    ("Chemistry", ChemistryTopics),
    ("Physics", PhysicsTopics)
  ]

  /** The topic reported when nothing is detected. */
  const General := "General"

  /** `topic_keywords[subject]` when `subject in topic_keywords`. */
  function RulesFor(table: KeywordTable, subject: string): (r: Option<seq<TopicRule>>)
    ensures r.None? <==> forall i :: 0 <= i < |table| ==> table[i].0 != subject
    ensures r.Some? ==> exists i :: 0 <= i < |table| && table[i].0 == subject && table[i].1 == r.value
  {
    if |table| == 0 then None
    else if table[0].0 == subject then Some(table[0].1)
    else
      var r := RulesFor(table[1..], subject);
      assert forall i :: 1 <= i < |table| ==> table[i] == table[1..][i - 1];
      r
  }

  /** Some keyword of `rule` occurs in `lower`. */
  ghost predicate Mentions(lower: string, rule: TopicRule) {
    exists k :: 0 <= k < |rule.keywords| && IsSubstring(rule.keywords[k], lower)
  }

  /** The topics among `rules` that the lower-cased text mentions. */
  ghost function MatchedTopics(rules: seq<TopicRule>, lower: string): set<string> {
    set i | 0 <= i < |rules| && Mentions(lower, rules[i]) :: rules[i].topic
  }

  /** The topics `detect_topics` finds for `subject`: none when the subject has no rules. */
  ghost function Detected(table: KeywordTable, text: string, subject: string): set<string> {
    match RulesFor(table, subject)
    case None => {}
    case Some(rules) => MatchedTopics(rules, Lower(text))
  }

  predicate Distinct(xs: seq<string>) {
    forall a, b :: 0 <= a < b < |xs| ==> xs[a] != xs[b]
  }

  /** `list(s)`: the elements of a set, each once, in an order the language leaves open. */
  method ListOf(s: set<string>) returns (xs: seq<string>)
    ensures Distinct(xs)
    ensures forall t :: t in xs <==> t in s
  {
    xs := [];
    var rest := s;
    while rest != {}
      invariant Distinct(xs)
      invariant forall t :: t in xs ==> t in s && t !in rest
      invariant forall t :: t in s ==> t in xs || t in rest
      invariant rest <= s
      decreases |rest|
    {
      var t :| t in rest;
      xs := xs + [t];
      rest := rest - {t};
    }
  }

  /** The inner `for keyword in keywords` loop: does any keyword occur in `lower`? */
  method AnyKeyword(lower: string, rule: TopicRule) returns (found: bool)
    ensures found <==> Mentions(lower, rule)
  {
    found := false;
    var j := 0;
    while j < |rule.keywords|
      invariant 0 <= j <= |rule.keywords|
      invariant forall k :: 0 <= k < j ==> !IsSubstring(rule.keywords[k], lower)
    {
      if Contains(lower, rule.keywords[j]) {
        found := true;
        break;
      }
      j := j + 1;
    }
  }

  /**
   `detect_topics` over a given keyword table: the result is never empty, has no
   repeated topic, is exactly `["General"]` when nothing is detected, and otherwise
   holds exactly the detected topics.
   */
  method DetectTopicsIn(table: KeywordTable, text: string, subject: string) returns (topics: seq<string>)
    ensures |topics| > 0 && Distinct(topics)
    ensures Detected(table, text, subject) == {} ==> topics == [General]
    ensures Detected(table, text, subject) != {} ==>
              forall t :: t in topics <==> t in Detected(table, text, subject)
  {
    var found: set<string> := {};
    var lower := Lower(text);
    var rules := RulesFor(table, subject);
    if rules.Some? {
      var rs := rules.value;
      var i := 0;
      while i < |rs|
        invariant 0 <= i <= |rs|
        invariant found == MatchedTopics(rs[..i], lower)
      {
        var hit := AnyKeyword(lower, rs[i]);
        MatchedTopicsSnoc(rs[..i], rs[i], lower);
        assert rs[..i + 1] == rs[..i] + [rs[i]];
        if hit {
          found := found + {rs[i].topic};
        }
        i := i + 1;
      }
      assert rs[..i] == rs;
    }
    if found == {} {
      topics := [General];
    } else {
      topics := ListOf(found);
    }
  }

  /** `detect_topics(text, subject)` with the script's own keyword table. */
  method DetectTopics(text: string, subject: string) returns (topics: seq<string>)
    ensures |topics| > 0 && Distinct(topics)
    ensures Detected(TopicKeywords, text, subject) == {} ==> topics == [General]
    ensures Detected(TopicKeywords, text, subject) != {} ==>
              forall t :: t in topics <==> t in Detected(TopicKeywords, text, subject)
  {
    topics := DetectTopicsIn(TopicKeywords, text, subject);
  }

  /**
   Only Mathematics, Biology, Chemistry and Physics have topic rules; for any other
   subject nothing is detected, so `detect_topics` answers `["General"]`.
   */
  lemma OnlyFourSubjectsHaveRules(text: string, subject: string)
    ensures RulesFor(TopicKeywords, subject).Some? <==>
              subject == "Mathematics" || subject == "Biology" || subject == "Chemistry" || subject == "Physics"
    ensures RulesFor(TopicKeywords, subject).None? ==> Detected(TopicKeywords, text, subject) == {}
  {
    if subject != "Mathematics" && subject != "Biology" && subject != "Chemistry" && subject != "Physics" {
      assert forall i :: 0 <= i < |TopicKeywords| ==> TopicKeywords[i].0 != subject;
    } else {
      assert TopicKeywords[0].0 == "Mathematics" && TopicKeywords[1].0 == "Biology";
      assert TopicKeywords[2].0 == "Chemistry" && TopicKeywords[3].0 == "Physics";
    }
  }

  /** Adding one rule to the scanned prefix adds its topic exactly when it is mentioned. */
  lemma MatchedTopicsSnoc(rules: seq<TopicRule>, rule: TopicRule, lower: string)
    ensures MatchedTopics(rules + [rule], lower)
              == MatchedTopics(rules, lower) + (if Mentions(lower, rule) then {rule.topic} else {})
  {
    var all := rules + [rule];
    assert all[|rules|] == rule;
    assert forall i :: 0 <= i < |rules| ==> all[i] == rules[i];
  }

  /** Detection ignores letter case: lower-casing the text first detects the same topics. */
  lemma DetectedIgnoresCase(table: KeywordTable, text: string, subject: string)
    ensures Detected(table, Lower(text), subject) == Detected(table, text, subject)
  {
    LowerIdempotent(text);
  }

  /** A keyword found in a piece of text is found in any text that contains that piece. */
  lemma LowerKeepsOccurrence(part: string, whole: string, i: int)
    requires MatchAt(whole, part, i)
    ensures MatchAt(Lower(whole), Lower(part), i)
  {
    LowerAt(whole);
    LowerAt(part);
  }

  /**
   More text never loses a topic: the topics detected in a piece of a text are among
   those detected in the whole text.
   */
  lemma DetectedMonotone(table: KeywordTable, part: string, whole: string, subject: string)
    requires IsSubstring(part, whole)
    ensures Detected(table, part, subject) <= Detected(table, whole, subject)
  {
    var p :| MatchAt(whole, part, p);
    LowerKeepsOccurrence(part, whole, p);
    var lp, lw := Lower(part), Lower(whole);
    forall kw: string | IsSubstring(kw, lp)
      ensures IsSubstring(kw, lw)
    {
      var j :| MatchAt(lp, kw, j);
      assert MatchAt(lw, kw, p + j) by {
        forall k | 0 <= k < |kw|
          ensures lw[p + j + k] == kw[k]
        {
          assert lp[j + k] == lw[p + j + k];
        }
      }
    }
  }
}
