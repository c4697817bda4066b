/**
  `extract_skills_spacy`: keep the tokens whose text is exactly one of the fixed
  skill keywords, drop repeats, and hand the distinct ones back as a list. The
  tokenizer is not modelled: its output is the input here.
 */
module Skills {

  /** `skill_keywords`: matched exactly and case-sensitively against whole tokens. */
  const SkillKeywords: set<string> := {
    "Python", "Java", "C++", "Machine Learning", "Deep Learning", "Data Science", "SQL", "React",
    "Node.js", "Django", "Flask", "TensorFlow", "Keras", "NLP", "Pandas", "NumPy", "Git", "AWS",
    "JavaScript", "TypeScript", "HTML", "CSS", "MongoDB", "NextJs", "PostgreSQL", "Prisma", "CI/CD",
    "VS Code", "Google Cloud Platform", "Cloudflare", "Turbo Repo", "Docker", "Next Auth", "JWT",
    "Recoil", "Aceternity UI", "Mongoose", "TailwindCSS"
  }

  predicate Distinct(xs: seq<string>) {
    forall i, j :: 0 <= i < j < |xs| ==> xs[i] != xs[j]
  }

  /**
    The set of keywords among `tokens`, built the way the source loop builds
    `found_skills`: one token at a time, adding it when it is a keyword.
   */
  function FoundSkills(tokens: seq<string>): (found: set<string>)
    ensures forall t :: t in found <==> t in SkillKeywords && t in tokens
    decreases |tokens|
  {
    if |tokens| == 0 then {}
    else
      var last := tokens[|tokens| - 1];
      var before := FoundSkills(tokens[..|tokens| - 1]);
      assert tokens == tokens[..|tokens| - 1] + [last];
      if last in SkillKeywords then before + {last} else before
  }

  /**
    `list(found_skills)`: the distinct keywords among the tokens, in an order the
    model leaves open, as Python's set iteration order is not specified.
   */
  method ExtractSkills(tokens: seq<string>) returns (skills: seq<string>)
    ensures Distinct(skills)
    ensures forall t :: t in skills <==> t in SkillKeywords && t in tokens
  {
    var found := FoundSkills(tokens);
    var rest := found;
    skills := [];
    while rest != {}
      invariant Distinct(skills)
      invariant forall t :: t in skills <==> t in found && t !in rest
      invariant rest <= found
      decreases |rest|
    {
      var t :| t in rest;
      skills := skills + [t];
      rest := rest - {t};
    }
  }

  /** Tokens that repeat or are not keywords add nothing. */
  lemma {:induction false} FoundSkillsIgnoresRepeats(tokens: seq<string>, t: string)
    requires t in tokens || t !in SkillKeywords
    ensures FoundSkills(tokens + [t]) == FoundSkills(tokens)
  {
    var extended := tokens + [t];
    forall u ensures u in FoundSkills(extended) <==> u in FoundSkills(tokens) {
      assert u in extended <==> u in tokens || u == t;
    }
  }
}
