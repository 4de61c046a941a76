/**
 * The skill categoriser `get_skill_categories` of analyzer.py: five fixed dictionaries
 * matched against the lower-cased text, each match appended as a label with a fixed
 * casing rule.
 */
module Skills {
  import opened Text
  import opened Ordering

  datatype Category = Languages | Frameworks | Databases | Tools | SoftSkills

  /** The key of the category in the returned dictionary. */
  function Key(c: Category): string {
    match c
    case Languages => "Programming Languages"
    case Frameworks => "Frameworks"
    case Databases => "Databases"
    case Tools => "Tools & Technologies"
    case SoftSkills => "Soft Skills"
  }

  /** The fixed dictionary of the category, in the order it is searched. */
  function Terms(c: Category): seq<string> {
    match c
    case Languages =>
      ["python", "java", "javascript", "c++", "c#", "ruby", "go", "rust",
       "php", "swift", "kotlin", "r", "matlab", "typescript"]
    case Frameworks =>
      ["react", "angular", "vue", "django", "flask", "express", "spring", "laravel",
       "rails", ".net", "tensorflow", "pytorch", "keras"]
    case Databases =>
      ["mysql", "postgresql", "mongodb", "redis", "oracle", "sql server",
       "dynamodb", "cassandra", "elasticsearch"]
    case Tools =>
      ["docker", "kubernetes", "git", "jenkins", "aws", "azure", "gcp", "linux",
       "windows", "jira", "confluence"]
    case SoftSkills =>
      ["leadership", "communication", "teamwork", "problem solving", "analytical",
       "creative", "management", "collaboration"]
  }

  /** The label appended for a matched term: `capitalize` for languages and frameworks,
      `upper` for databases of at most 5 and tools of at most 3 characters and
      `capitalize` for longer ones, `title` for soft skills.  Only the case of letters
      changes: lower-casing the label of a lower-case term gives the term back. */
  function Label(c: Category, term: string): (shown: string)
    ensures |shown| == |term|
    ensures IsLowerCase(term) ==> Lower(shown) == term
  {
    CasingFoldsBack(term);
    match c
    case Languages => Capitalize(term)
    case Frameworks => Capitalize(term)
    case Databases => if |term| <= 5 then Upper(term) else Capitalize(term)
    case Tools => if |term| <= 3 then Upper(term) else Capitalize(term)
    case SoftSkills => Title(term)
  }

  /** Soft skills are found as plain substrings (`skill in text_lower`); every other
      term needs a regex word boundary on both sides. */
  function Found(c: Category, term: string, textLower: string): (found: bool)
    ensures c == SoftSkills ==> (found <==> exists j: nat :: SubstringAt(textLower, term, j))
    ensures c != SoftSkills ==> (found <==> exists j: nat :: WholeWordAt(textLower, term, j))
  {
    if c == SoftSkills then Contains(textLower, term) else ContainsWord(textLower, term)
  }

  /** The labels of the terms of `terms` found in `textLower`, in the order of `terms`. */
  function Matched(c: Category, terms: seq<string>, textLower: string): seq<string> {
    Selected(terms, FoundIn(c, textLower), LabelOf(c))
  }

  function FoundIn(c: Category, textLower: string): string -> bool {
    t => Found(c, t, textLower)
  }

  function LabelOf(c: Category): string -> string {
    t => Label(c, t)
  }

  /** The shape of each loop: `name(t)` for every `t` of `terms` with `found(t)`, in
      the order of `terms`. */
  function Selected(terms: seq<string>, found: string -> bool, name: string -> string): seq<string> {
    if terms == [] then []
    else
      var last := terms[|terms| - 1];
      Selected(terms[..|terms| - 1], found, name) + if found(last) then [name(last)] else []
  }

  /** One of the five loops of `get_skill_categories`: walks the category's dictionary
      `terms` and appends the label of every term found. */
  method CollectCategory(c: Category, terms: seq<string>, textLower: string) returns (labels: seq<string>)
    ensures labels == Matched(c, terms, textLower)
  {
    labels := [];
    for i := 0 to |terms|
      invariant labels == Matched(c, terms[..i], textLower)
    {
      assert terms[..i + 1][..i] == terms[..i];
      if Found(c, terms[i], textLower) {
        labels := labels + [Label(c, terms[i])];
      }
    }
    assert terms[..|terms|] == terms;
  }

  /** `get_skill_categories(text)`: exactly the five fixed keys, each holding the labels
      its dictionary finds in the lower-cased text. */
  method GetSkillCategories(text: string) returns (skills: map<string, seq<string>>)
    ensures skills.Keys == {"Programming Languages", "Frameworks", "Databases", "Tools & Technologies", "Soft Skills"}
    ensures forall c: Category :: Key(c) in skills && skills[Key(c)] == Matched(c, Terms(c), Lower(text))
  {
    var textLower := Lower(text);
    var languages := CollectCategory(Languages, Terms(Languages), textLower);
    var frameworks := CollectCategory(Frameworks, Terms(Frameworks), textLower);
    var databases := CollectCategory(Databases, Terms(Databases), textLower);
    var tools := CollectCategory(Tools, Terms(Tools), textLower);
    var softSkills := CollectCategory(SoftSkills, Terms(SoftSkills), textLower);
    skills := map[
      Key(Languages) := languages,
      Key(Frameworks) := frameworks,
      Key(Databases) := databases,
      Key(Tools) := tools,
      Key(SoftSkills) := softSkills];
    forall c: Category ensures Key(c) in skills && skills[Key(c)] == Matched(c, Terms(c), textLower) {
      match c
      case Languages =>
      case Frameworks =>
      case Databases =>
      case Tools =>
      case SoftSkills =>
    }
  }

  // ---------- properties of the categoriser ----------

  /** Every dictionary is lower case and free of repetitions. */
  lemma DictionaryWellFormed(c: Category)
    ensures Distinct(Terms(c))
    ensures forall t :: t in Terms(c) ==> IsLowerCase(t)
  {
    match c
    case Languages => LanguagesWellFormed();
    case Frameworks => FrameworksWellFormed();
    case Databases => DatabasesWellFormed();
    case Tools => ToolsWellFormed();
    case SoftSkills => SoftSkillsWellFormed();
  }

  lemma LanguagesWellFormed()
    ensures Distinct(Terms(Languages))
    ensures forall i :: 0 <= i < |Terms(Languages)| ==> IsLowerCase(Terms(Languages)[i])
  {
  }

  lemma FrameworksWellFormed()
    ensures Distinct(Terms(Frameworks))
    ensures forall i :: 0 <= i < |Terms(Frameworks)| ==> IsLowerCase(Terms(Frameworks)[i])
  {
  }

  lemma DatabasesWellFormed()
    ensures Distinct(Terms(Databases))
    ensures forall i :: 0 <= i < |Terms(Databases)| ==> IsLowerCase(Terms(Databases)[i])
  {
  }

  lemma ToolsWellFormed()
    ensures Distinct(Terms(Tools))
    ensures forall i :: 0 <= i < |Terms(Tools)| ==> IsLowerCase(Terms(Tools)[i])
  {
  }

  lemma SoftSkillsWellFormed()
    ensures Distinct(Terms(SoftSkills))
    ensures forall i :: 0 <= i < |Terms(SoftSkills)| ==> IsLowerCase(Terms(SoftSkills)[i])
  {
  }

  /** Every label in the list is the label of a found term. */
  lemma MatchedComeFromTerms(c: Category, terms: seq<string>, textLower: string, shown: string)
    ensures shown in Matched(c, terms, textLower) ==>
      exists t :: t in terms && Found(c, t, textLower) && Label(c, t) == shown
  {
    SelectedComeFromTerms(terms, FoundIn(c, textLower), LabelOf(c), shown);
  }

  lemma {:induction false} SelectedComeFromTerms(terms: seq<string>, found: string -> bool, name: string -> string, shown: string)
    ensures shown in Selected(terms, found, name) ==> exists t :: t in terms && found(t) && name(t) == shown
    decreases |terms|
  {
    if terms != [] {
      var init := terms[..|terms| - 1];
      assert terms == init + [terms[|terms| - 1]];
      SelectedComeFromTerms(init, found, name, shown);
      if shown in Selected(init, found, name) {
        var t :| t in init && found(t) && name(t) == shown;
        assert t in terms;
      }
    }
  }

  /** The label of a found term is in the list. */
  lemma FoundIsMatched(c: Category, terms: seq<string>, textLower: string, i: nat)
    requires i < |terms| && Found(c, terms[i], textLower)
    ensures Label(c, terms[i]) in Matched(c, terms, textLower)
  {
    var p := SelectedPosition(terms, FoundIn(c, textLower), LabelOf(c), i);
  }

  /** Where the label of a found term sits in the list. */
  lemma {:induction false} SelectedPosition(terms: seq<string>, found: string -> bool, name: string -> string, i: nat)
    returns (p: nat)
    requires i < |terms| && found(terms[i])
    ensures p < |Selected(terms, found, name)| && Selected(terms, found, name)[p] == name(terms[i])
    decreases |terms|
  {
    var init := terms[..|terms| - 1];
    var si := Selected(init, found, name);
    if i < |terms| - 1 {
      assert init[i] == terms[i];
      p := SelectedPosition(init, found, name, i);
    } else {
      p := |si|;
    }
  }

  /** A label is in the list exactly when its term is found: two different terms of a
      lower-case dictionary never share a label. */
  lemma MatchedIff(c: Category, terms: seq<string>, textLower: string, term: string)
    requires forall t :: t in terms ==> IsLowerCase(t)
    requires term in terms
    ensures Label(c, term) in Matched(c, terms, textLower) <==> Found(c, term, textLower)
  {
    var k :| 0 <= k < |terms| && terms[k] == term;
    if Found(c, term, textLower) {
      FoundIsMatched(c, terms, textLower, k);
    }
    MatchedComeFromTerms(c, terms, textLower, Label(c, term));
    forall t | t in terms && Label(c, t) == Label(c, term) ensures t == term {
      assert Lower(Label(c, t)) == t && Lower(Label(c, term)) == term;
    }
  }

  /** No label is listed twice. */
  lemma MatchedDistinct(c: Category, terms: seq<string>, textLower: string)
    requires Distinct(terms)
    requires forall t :: t in terms ==> IsLowerCase(t)
    ensures Distinct(Matched(c, terms, textLower))
  {
    forall t, u | t in terms && u in terms && LabelOf(c)(t) == LabelOf(c)(u) ensures t == u {
      assert Lower(Label(c, t)) == t && Lower(Label(c, u)) == u;
    }
    SelectedDistinct(terms, FoundIn(c, textLower), LabelOf(c));
  }

  lemma {:induction false} SelectedDistinct(terms: seq<string>, found: string -> bool, name: string -> string)
    requires Distinct(terms)
    requires forall t, u :: t in terms && u in terms && name(t) == name(u) ==> t == u
    ensures Distinct(Selected(terms, found, name))
    decreases |terms|
  {
    if terms != [] {
      var init := terms[..|terms| - 1];
      var last := terms[|terms| - 1];
      assert terms == init + [last];
      SelectedDistinct(init, found, name);
      SelectedComeFromTerms(init, found, name, name(last));
      forall t | t in init ensures name(t) != name(last) {
        var k :| 0 <= k < |init| && init[k] == t;
        assert terms[k] != terms[|terms| - 1];
      }
    }
  }

  /** `a` occurs before `b` in `s`. */
  predicate Before(s: seq<string>, a: string, b: string) {
    exists p, q :: 0 <= p < q < |s| && s[p] == a && s[q] == b
  }

  /** Labels are listed in dictionary order: when two terms are found, the earlier
      term's label comes first. */
  lemma MatchedInOrder(c: Category, terms: seq<string>, textLower: string, i: nat, j: nat)
    requires i < j < |terms|
    requires Found(c, terms[i], textLower) && Found(c, terms[j], textLower)
    ensures Before(Matched(c, terms, textLower), Label(c, terms[i]), Label(c, terms[j]))
  {
    var p, q := SelectedPositions(terms, FoundIn(c, textLower), LabelOf(c), i, j);
  }

  lemma {:induction false} SelectedPositions(terms: seq<string>, found: string -> bool, name: string -> string, i: nat, j: nat)
    returns (p: nat, q: nat)
    requires i < j < |terms| && found(terms[i]) && found(terms[j])
    ensures p < q < |Selected(terms, found, name)|
    ensures Selected(terms, found, name)[p] == name(terms[i])
    ensures Selected(terms, found, name)[q] == name(terms[j])
    decreases |terms|
  {
    var init := terms[..|terms| - 1];
    var si := Selected(init, found, name);
    assert init[i] == terms[i];
    if j == |terms| - 1 {
      p := SelectedPosition(init, found, name, i);
      q := |si|;
    } else {
      assert init[j] == terms[j];
      p, q := SelectedPositions(init, found, name, i, j);
    }
  }

  /** Databases of at most five characters and tools of at most three are listed in
      capitals, longer ones capitalised. */
  lemma ShortNamesInCapitals()
    ensures Label(Databases, "mysql") == "MYSQL"
    ensures Label(Tools, "aws") == "AWS"
    ensures Label(Tools, "docker") == "Docker"
  {
    assert Upper("mysql") == "MYSQL";
    assert Upper("aws") == "AWS";
    assert Lower("ocker") == "ocker";
  }

  /** Soft skills are title-cased word by word: in a term of lower-case words separated
      by blanks, such as "problem solving", the first letter of each word is upper-cased
      and every other character is kept. */
  lemma SoftSkillsTitled(term: string)
    requires forall i :: 0 <= i < |term| ==> IsLowerLetter(term[i]) || term[i] == ' '
    ensures forall i :: 0 <= i < |term| ==>
      Label(SoftSkills, term)[i] == if i == 0 || term[i - 1] == ' ' then ToUpper(term[i]) else term[i]
  {
    forall i | 0 <= i < |term|
      ensures Title(term)[i] == if i == 0 || term[i - 1] == ' ' then ToUpper(term[i]) else term[i]
    {
      TitleCharAt(term, false, i);
    }
  }

  /** A term ending in a non-word character, such as `c++` or `c#`, is only found
      where a word character follows it. */
  lemma TrailingSymbolNeedsWordAfter(textLower: string, term: string)
    requires term != [] && !IsWordChar(term[|term| - 1])
    ensures ContainsWord(textLower, term) ==>
      exists j: nat :: SubstringAt(textLower, term, j) && j + |term| < |textLower| && IsWordChar(textLower[j + |term|])
  {
    if ContainsWord(textLower, term) {
      var j: nat :| WholeWordAt(textLower, term, j);
      assert textLower[j + |term| - 1] == term[|term| - 1];
    }
  }

  /** A term starting with a non-word character, such as `.net`, is only found where a
      word character precedes it. */
  lemma LeadingSymbolNeedsWordBefore(textLower: string, term: string)
    requires term != [] && !IsWordChar(term[0])
    ensures ContainsWord(textLower, term) ==>
      exists j: nat :: SubstringAt(textLower, term, j) && 0 < j && IsWordChar(textLower[j - 1])
  {
    if ContainsWord(textLower, term) {
      var j: nat :| WholeWordAt(textLower, term, j);
      assert textLower[j] == term[0];
    }
  }

  /** So a text that is just "c++" lists no C++, and one that is just ".net" no ".net". */
  lemma SymbolTermsAlone()
    ensures !Found(Languages, "c++", "c++")
    ensures !Found(Frameworks, ".net", ".net")
  {
    TrailingSymbolNeedsWordAfter("c++", "c++");
    LeadingSymbolNeedsWordBefore(".net", ".net");
  }
}
