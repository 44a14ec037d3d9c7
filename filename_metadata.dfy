/**
 `extract_metadata_from_filename`: the year, paper number and exam session read
 from a PDF's file name. The two regular expressions are written out as scanners
 over ASCII text.
 */
module FilenameMetadata {
  import opened Wrappers
  import opened Text

  /** A value of the metadata dict: a string or an integer. */
  datatype Value = Str(s: string) | Int(n: int)

  /** The keys the script puts in a metadata dict. */
  datatype Key = Source | ContentType | Year | Paper | SessionKey | ChunkIndex | TotalChunks

  type Metadata = map<Key, Value>

  /** `(19|20)\d{2}` matches at index `i`. */
  predicate YearAt(s: string, i: int) {
    && 0 <= i && i + 4 <= |s|
    && ((s[i] == '1' && s[i + 1] == '9') || (s[i] == '2' && s[i + 1] == '0'))
    && IsDigit(s[i + 2]) && IsDigit(s[i + 3])
  }

  /** `int(year_match.group())` for a match at `i`. */
  function YearValue(s: string, i: int): (y: nat)
    requires YearAt(s, i)
  {
    ParseDecimal(s[i..i + 4])
  }

  /** A year match lies in 1900..2099. */
  lemma YearInRange(s: string, i: int)
    requires YearAt(s, i)
    ensures 1900 <= YearValue(s, i) <= 2099
  {
    var w := s[i..i + 4];
    assert w[..1][..0] == [];
    assert ParseDecimal(w[..1]) == DigitValue(s[i]);
    assert w[..2][..1] == w[..1];
    assert ParseDecimal(w[..2]) == 10 * DigitValue(s[i]) + DigitValue(s[i + 1]);
    assert w[..3][..2] == w[..2];
    assert ParseDecimal(w[..3]) == 10 * ParseDecimal(w[..2]) + DigitValue(s[i + 2]);
    assert ParseDecimal(w) == 10 * ParseDecimal(w[..3]) + DigitValue(s[i + 3]);
  }

  /** `re.search`: the leftmost index where `(19|20)\d{2}` matches. */
  method FindYear(s: string) returns (year: Option<nat>)
    ensures year.None? <==> forall i :: !YearAt(s, i)
    ensures year.Some? ==> exists i :: YearAt(s, i) && (forall j :: 0 <= j < i ==> !YearAt(s, j)) && year.value == YearValue(s, i)
    ensures year.Some? ==> 1900 <= year.value <= 2099
  {
    var i := 0;
    while i + 4 <= |s|
      invariant 0 <= i
      invariant forall j :: 0 <= j < i ==> !YearAt(s, j)
    {
      if YearAt(s, i) {
        YearInRange(s, i);
        return Some(YearValue(s, i));
      }
      i := i + 1;
    }
    return None;
  }

  /** `[123]`, the captured paper digit. */
  predicate PaperDigit(c: char) { c == '1' || c == '2' || c == '3' }

  /** `[_\-\s]`, the optional separator. */
  predicate Separator(c: char) { c == '_' || c == '-' || IsSpace(c) }

  /**
   `[_\-\s]?([123])` tried at index `j`, in the regex engine's order: first with
   the separator, then without it.
   */
  function DigitAfter(s: string, j: int): (r: Option<nat>)
    requires 0 <= j
    ensures r.Some? ==> 1 <= r.value <= 3
  {
    if j + 1 < |s| && Separator(s[j]) && PaperDigit(s[j + 1]) then Some(DigitValue(s[j + 1]))
    else if j < |s| && PaperDigit(s[j]) then Some(DigitValue(s[j]))
    else None
  }

  /**
   The first alternative, `p(?:aper)?[_\-\s]?([123])`: with `aper` first, then without.
   A match starts with `p` and captures a digit from 1 to 3.
   */
  function FirstAlternative(s: string, i: nat): (r: Option<nat>)
    ensures r.Some? ==> i < |s| && s[i] == 'p' && 1 <= r.value <= 3
  {
    if i < |s| && s[i] == 'p' then
      if MatchAt(s, "paper", i) && DigitAfter(s, i + 5).Some? then DigitAfter(s, i + 5)
      else DigitAfter(s, i + 1)
    else None
  }

  /**
   The second alternative, `paper[_\-\s]?([123])`. It never matches where the first
   does not, and then captures the same digit: `group(2)` is never the one used.
   */
  function SecondAlternative(s: string, i: nat): (r: Option<nat>)
    ensures r.Some? ==> FirstAlternative(s, i) == r
  {
    if MatchAt(s, "paper", i) then
      assert s[i] == "paper"[0];
      DigitAfter(s, i + 5)
    else None
  }

  /**
   The paper pattern at index `i`, with `group(1) or group(2)` as its value: a match
   starts with `p` inside the name and gives a paper number from 1 to 3.
   */
  function PaperAt(s: string, i: nat): (r: Option<nat>)
    ensures r.Some? ==> i < |s| && s[i] == 'p' && 1 <= r.value <= 3
  {
    match FirstAlternative(s, i)
    case Some(d) => Some(d)
    case None => SecondAlternative(s, i)
  }

  /** Where `paper` is spelled out, the shorter form `p` followed by a digit cannot also match. */
  lemma PaperWaysExclusive(s: string, i: nat)
    requires MatchAt(s, "paper", i)
    ensures DigitAfter(s, i + 1).None?
  {
    assert s[i + 1] == "paper"[1];
  }

  /** `re.search` for the paper pattern: the leftmost index where it matches, and its digit. */
  method FindPaper(s: string) returns (paper: Option<nat>)
    ensures paper.None? <==> forall i: nat :: PaperAt(s, i).None?
    ensures paper.Some? ==>
              exists i: nat :: PaperAt(s, i) == paper && forall j: nat :: j < i ==> PaperAt(s, j).None?
    ensures paper.Some? ==> 1 <= paper.value <= 3
  {
    var i: nat := 0;
    while i < |s|
      invariant forall j: nat :: j < i ==> PaperAt(s, j).None?
    {
      var p := PaperAt(s, i);
      if p.Some? {
        return p;
      }
      i := i + 1;
    }
    return None;
  }

  /**
   The session, from the lower-cased file name: January exactly when it contains
   `jan`; May/June exactly when it does not but contains `may` or `jun`; otherwise none.
   */
  function Session(lower: string): (r: Option<string>)
    ensures r == Some("January") <==> IsSubstring("jan", lower)
    ensures r == Some("May/June") <==>
              !IsSubstring("jan", lower) && (IsSubstring("may", lower) || IsSubstring("jun", lower))
    ensures r.None? <==>
              !IsSubstring("jan", lower) && !IsSubstring("may", lower) && !IsSubstring("jun", lower)
  {
    if Contains(lower, "jan") then Some("January")
    else if Contains(lower, "may") || Contains(lower, "jun") then Some("May/June")
    else None
  }

  /** The entries that are always there. */
  predicate FixedEntries(m: Metadata, filename: string, contentType: string) {
    && Source in m && m[Source] == Str(filename)
    && ContentType in m && m[ContentType] == Str(contentType)
  }

  /** `year` is present exactly when the name holds a year, and is then the first one. */
  ghost predicate YearEntry(m: Metadata, filename: string) {
    && (Year in m <==> exists i :: YearAt(filename, i))
    && (Year in m ==> exists i :: YearAt(filename, i) && (forall j :: 0 <= j < i ==> !YearAt(filename, j))
                                     && m[Year] == Int(YearValue(filename, i)))
  }

  /** `paper` is present exactly when the lower-cased name holds a paper number, and is then the first one. */
  ghost predicate PaperEntry(m: Metadata, lower: string) {
    && (Paper in m <==> exists i: nat :: PaperAt(lower, i).Some?)
    && (Paper in m ==> exists i: nat :: PaperAt(lower, i).Some? && m[Paper] == Int(PaperAt(lower, i).value)
                                         && forall j: nat :: j < i ==> PaperAt(lower, j).None?)
  }

  /** `session` follows the lower-cased name's month markers. */
  predicate SessionEntry(m: Metadata, lower: string) {
    && (SessionKey in m <==> Session(lower).Some?)
    && (SessionKey in m ==> m[SessionKey] == Str(Session(lower).value))
  }

  /** The metadata the file name yields, entry by entry. */
  ghost predicate Describes(m: Metadata, filename: string, contentType: string) {
    && m.Keys <= {Source, ContentType, Year, Paper, SessionKey}
    && FixedEntries(m, filename, contentType)
    && YearEntry(m, filename)
    && PaperEntry(m, Lower(filename))
    && SessionEntry(m, Lower(filename))
  }

  /** Setting an optional key leaves `source` and `content_type` as they were. */
  lemma FixedEntriesFrame(m: Metadata, filename: string, contentType: string, k: Key, v: Value)
    requires FixedEntries(m, filename, contentType) && k != Source && k != ContentType
    ensures FixedEntries(m[k := v], filename, contentType)
  {
  }

  /** Setting a key other than `year` leaves the year entry as it was. */
  lemma YearEntryFrame(m: Metadata, filename: string, k: Key, v: Value)
    requires YearEntry(m, filename) && k != Year
    ensures YearEntry(m[k := v], filename)
  {
    assert Year in m ==> m[k := v][Year] == m[Year];
  }

  /** Setting the session leaves the paper entry as it was. */
  lemma PaperEntryFrame(m: Metadata, lower: string, v: Value)
    requires PaperEntry(m, lower)
    ensures PaperEntry(m[SessionKey := v], lower)
  {
    assert Paper in m ==> m[SessionKey := v][Paper] == m[Paper];
  }

  /**
   `extract_metadata_from_filename`: `source` and `content_type` are always set; `year`
   is the first 19xx/20xx in the name, so in 1900..2099; `paper` is the first paper
   number, in 1..3; `session` is January when the name contains `jan`, else May/June
   when it contains `may` or `jun`.
   */
  method ExtractMetadata(filename: string, contentType: string) returns (metadata: Metadata)
    ensures Describes(metadata, filename, contentType)
    ensures Year in metadata ==> metadata[Year].Int? && 1900 <= metadata[Year].n <= 2099
    ensures Paper in metadata ==> metadata[Paper].Int? && 1 <= metadata[Paper].n <= 3
  {
    metadata := map[Source := Str(filename), ContentType := Str(contentType)];
    var year := FindYear(filename);
    if year.Some? {
      FixedEntriesFrame(metadata, filename, contentType, Year, Int(year.value));
      metadata := metadata[Year := Int(year.value)];
    }
    assert YearEntry(metadata, filename);
    var lower := Lower(filename);
    var paper := FindPaper(lower);
    if paper.Some? {
      FixedEntriesFrame(metadata, filename, contentType, Paper, Int(paper.value));
      YearEntryFrame(metadata, filename, Paper, Int(paper.value));
      metadata := metadata[Paper := Int(paper.value)];
    }
    assert PaperEntry(metadata, lower);
    var session := Session(lower);
    if session.Some? {
      FixedEntriesFrame(metadata, filename, contentType, SessionKey, Str(session.value));
      YearEntryFrame(metadata, filename, SessionKey, Str(session.value));
      PaperEntryFrame(metadata, lower, Str(session.value));
      metadata := metadata[SessionKey := Str(session.value)];
    }
    assert SessionEntry(metadata, lower);
    assert metadata.Keys <= {Source, ContentType, Year, Paper, SessionKey};
  }
}
