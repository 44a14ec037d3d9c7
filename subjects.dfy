/**
 Subject names from folder names: `normalize_subject` and its alias table.
 The table is a Python dict, whose iteration order is insertion order, so it is
 modelled as the ordered sequence of its (alias, canonical name) entries.
 */
module Subjects {
  import opened Wrappers
  import opened Text

  /** Aliases and canonical names are never empty; the table's type records it. */
  type Word = s: string | |s| > 0 witness "a"

  type Table = seq<(Word, Word)>

  /** One entry `alias: canonical` of the table. */
  function Entry(alias: string, canonical: string): (Word, Word)
    requires |alias| > 0 && |canonical| > 0
  {
    (alias, canonical)
  }

  /**
   `SUBJECT_ALIASES`, entry by entry in the order written. The literal is split in
   two halves so that the verifier can index each part directly.
   */
  const SubjectAliases: Table := AliasesFirstHalf + AliasesSecondHalf

  const AliasesFirstHalf: Table := [
    Entry("math", "Mathematics"),
    Entry("maths", "Mathematics"),
    Entry("mathematics", "Mathematics"),
    Entry("bio", "Biology"),
    Entry("biology", "Biology"),
    Entry("chem", "Chemistry"),
    Entry("chemistry", "Chemistry"),
    Entry("phys", "Physics"),
    Entry("physics", "Physics"),
    Entry("english-a", "English A"),
    Entry("english-b", "English B"),
    Entry("english a", "English A"),
    Entry("english b", "English B"),
    Entry("englisha", "English A"),
    Entry("englishb", "English B"),
    Entry("history", "Caribbean History"),
    Entry("caribbean-history", "Caribbean History"),
    Entry("caribbean history", "Caribbean History"),
    Entry("economics", "Economics"),
    Entry("econ", "Economics"),
    Entry("geography", "Geography"),
    Entry("geo", "Geography"),
    Entry("pob", "Principles of Business"),
    Entry("principles-of-business", "Principles of Business"),
    Entry("poa", "Principles of Accounts"),
    Entry("principles-of-accounts", "Principles of Accounts")
  ]

  const AliasesSecondHalf: Table := [
    Entry("it", "Information Technology"),
    Entry("information-technology", "Information Technology"),
    Entry("cs", "Computer Science"),
    Entry("social-studies", "Social Studies"),
    Entry("spanish", "Spanish"),
    Entry("french", "French"),
    Entry("integrated-science", "Integrated Science"),
    Entry("agricultural-science", "Agricultural Science"),
    Entry("human-and-social-biology", "Human and Social Biology"),
    Entry("hsb", "Human and Social Biology"),
    Entry("visual-arts", "Visual Arts"),
    Entry("music", "Music"),
    Entry("physical-education", "Physical Education"),
    Entry("pe", "Physical Education"),
    Entry("office-administration", "Office Administration"),
    Entry("theatre-arts", "Theatre Arts"),
    Entry("electronic-document-preparation", "Electronic Document Preparation"),
    Entry("edpm", "Electronic Document Preparation"),
    Entry("food-and-nutrition", "Food and Nutrition"),
    Entry("home-economics", "Home Economics"),
    Entry("textiles-clothing-and-fashion", "Textiles Clothing and Fashion"),
    Entry("technical-drawing", "Technical Drawing"),
    Entry("building-technology", "Building Technology"),
    Entry("electrical-and-electronic-technology", "Electrical and Electronic Technology"),
    Entry("mechanical-engineering-technology", "Mechanical Engineering Technology"),
    Entry("religious-education", "Religious Education")
  ]

  /** The lookup key: `folder_name.lower().strip().replace('_', '-').replace(' ', '-')`. */
  function SubjectKey(folder: string): (key: string)
    ensures forall i :: 0 <= i < |key| ==> key[i] != ' ' && key[i] != '_'
  {
    ReplaceChar(ReplaceChar(Strip(Lower(folder)), '_', '-'), ' ', '-')
  }

  /**
   `key in table` followed by `table[key]`: nothing exactly when the key is none of
   the aliases, otherwise the canonical name of the first entry whose alias it is.
   */
  function Lookup(table: Table, key: string): (r: Option<Word>)
    ensures r.None? <==> forall i :: 0 <= i < |table| ==> table[i].0 != key
    ensures r.Some? ==> exists i :: FirstExactAt(table, key, i) && r.value == table[i].1
  {
    if |table| == 0 then None
    else if table[0].0 == key then
      assert FirstExactAt(table, key, 0);
      Some(table[0].1)
    else
      var rest := table[1..];
      var r := Lookup(rest, key);
      assert forall i :: 1 <= i < |table| ==> table[i] == rest[i - 1];
      assert r.Some? ==> exists i :: FirstExactAt(table, key, i) && r.value == table[i].1 by {
        if r.Some? {
          var i :| FirstExactAt(rest, key, i) && r.value == rest[i].1;
          assert FirstExactAt(table, key, i + 1);
        }
      }
      r
  }

  /** The partial-match test `alias in key or key in alias`, as a definition. */
  ghost predicate Related(alias: string, key: string) {
    IsSubstring(alias, key) || IsSubstring(key, alias)
  }

  /**
   The `for alias, canonical in SUBJECT_ALIASES.items()` scan with its early return:
   the canonical name of the first alias related to the key, or nothing if none is.
   */
  function FirstRelated(table: Table, key: string): (r: Option<Word>)
    ensures r.None? <==> forall i :: 0 <= i < |table| ==> !Related(table[i].0, key)
    ensures r.Some? ==> exists i :: FirstRelatedAt(table, key, i) && r.value == table[i].1
  {
    if |table| == 0 then None
    else if Contains(key, table[0].0) || Contains(table[0].0, key) then
      assert FirstRelatedAt(table, key, 0);
      Some(table[0].1)
    else
      var rest := table[1..];
      var r := FirstRelated(rest, key);
      assert forall i :: 1 <= i < |table| ==> table[i] == rest[i - 1];
      assert r.Some? ==> exists i :: FirstRelatedAt(table, key, i) && r.value == table[i].1 by {
        if r.Some? {
          var i :| FirstRelatedAt(rest, key, i) && r.value == rest[i].1;
          assert FirstRelatedAt(table, key, i + 1);
        }
      }
      r
  }

  /** `.replace('-', ' ').replace('_', ' ').title()`: the name shown when no alias fits. */
  function FallbackName(folder: string): (r: string)
    ensures |r| == |folder|
  {
    Title(ReplaceChar(ReplaceChar(folder, '-', ' '), '_', ' '))
  }

  /**
   `normalize_subject` over a given alias table: exact alias, else the first related
   alias, else the title-cased folder name. So the name is always one of the table's
   canonical names or the title-cased folder name.
   */
  function NormalizeWith(table: Table, folder: string): (r: string)
    ensures (exists i :: 0 <= i < |table| && r == table[i].1) || r == FallbackName(folder)
  {
    var key := SubjectKey(folder);
    match Lookup(table, key)
    case Some(name) => name
    case None =>
      match FirstRelated(table, key)
      case Some(name) => name
      case None => FallbackName(folder)
  }

  /** `normalize_subject`, over `SUBJECT_ALIASES`: never an empty name, whatever the folder name. */
  function NormalizeSubject(folder: string): (r: string)
    ensures |r| > 0
  {
    NormalizeWithNonEmpty(SubjectAliases, folder);
    NormalizeWith(SubjectAliases, folder)
  }

  /** Entry `i` is the first whose alias equals the key. */
  predicate FirstExactAt(table: Table, key: string, i: int) {
    0 <= i < |table| && table[i].0 == key && forall j :: 0 <= j < i ==> table[j].0 != key
  }

  /** Entry `i` is the first whose alias contains the key or is contained in it. */
  ghost predicate FirstRelatedAt(table: Table, key: string, i: int) {
    0 <= i < |table| && Related(table[i].0, key) && forall j :: 0 <= j < i ==> !Related(table[j].0, key)
  }

  /** An alias equal to the key decides the name: the first such alias's name is returned. */
  lemma ExactAliasWins(table: Table, folder: string, i: int)
    requires FirstExactAt(table, SubjectKey(folder), i)
    ensures NormalizeWith(table, folder) == table[i].1
  {
    var key := SubjectKey(folder);
    var r := Lookup(table, key);
    assert r.Some?;
    var j :| FirstExactAt(table, key, j) && r.value == table[j].1;
    assert !(j < i) && !(i < j);
  }

  /**
   With no alias equal to the key, the name is that of the first alias in table order
   that contains the key or is contained in it.
   */
  lemma FirstRelatedWins(table: Table, folder: string, i: int)
    requires forall j :: 0 <= j < |table| ==> table[j].0 != SubjectKey(folder)
    requires FirstRelatedAt(table, SubjectKey(folder), i)
    ensures NormalizeWith(table, folder) == table[i].1
  {
    var key := SubjectKey(folder);
    var r := FirstRelated(table, key);
    assert Lookup(table, key).None?;
    assert r.Some?;
    var j :| FirstRelatedAt(table, key, j) && r.value == table[j].1;
    assert !(j < i) && !(i < j);
  }

  /** With no alias related to the key, the name is the folder name with `-` and `_` as spaces, title-cased. */
  lemma FallbackWhenUnrelated(table: Table, folder: string)
    requires forall i :: 0 <= i < |table| ==> !Related(table[i].0, SubjectKey(folder))
    ensures NormalizeWith(table, folder) == FallbackName(folder)
  {
    var key := SubjectKey(folder);
    if Lookup(table, key).Some? {
      var i :| 0 <= i < |table| && table[i].0 == key;
      assert MatchAt(table[i].0, key, 0);
    }
  }

  /** With a non-empty table the name is never empty: an empty key is contained in every alias. */
  lemma NormalizeWithNonEmpty(table: Table, folder: string)
    requires |table| > 0
    ensures |NormalizeWith(table, folder)| > 0
  {
    var key := SubjectKey(folder);
    if |key| == 0 {
      assert MatchAt(table[0].0, key, 0);
    }
  }

  /** An empty key equals no alias but is contained in the first one, which therefore decides the name. */
  lemma EmptyKeyTakesFirst(table: Table, folder: string)
    requires |table| > 0 && |SubjectKey(folder)| == 0
    ensures NormalizeWith(table, folder) == table[0].1
  {
    var key := SubjectKey(folder);
    assert MatchAt(table[0].0, key, 0);
  }

  /** An empty or all-whitespace folder name gives an empty key: `strip` removes all of it. */
  lemma BlankFolderEmptyKey(folder: string)
    requires forall i :: 0 <= i < |folder| ==> IsSpace(folder[i])
    ensures |SubjectKey(folder)| == 0
  {
    LowerAt(folder);
    assert forall i :: 0 <= i < |Lower(folder)| ==> IsSpace(Lower(folder)[i]);
    StripSlice(Lower(folder));
  }

  /**
   An empty key (from an empty or all-whitespace folder name, by `BlankFolderEmptyKey`)
   is contained in the first alias, `math`, so the name is Mathematics.
   */
  lemma EmptyKeyIsMathematics(folder: string)
    requires |SubjectKey(folder)| == 0
    ensures NormalizeSubject(folder) == "Mathematics"
  {
    EmptyKeyTakesFirst(SubjectAliases, folder);
    assert SubjectAliases[0] == AliasesFirstHalf[0];
  }

  /**
   The key never contains a space, so the aliases written with a space
   (`english a`, `english b`, `caribbean history`) never match exactly.
   */
  lemma SpacedAliasNeverExact(folder: string, i: int)
    requires 0 <= i < |SubjectAliases| && ' ' in SubjectAliases[i].0
    ensures SubjectAliases[i].0 != SubjectKey(folder)
  {
  }
}
