/**
  `scrape_jobs`: for each skill in order, open the LinkedIn search page for it
  and keep the `href` of the first five job-card links. The browser and the page
  are not modelled: `linksAt(url)` stands for the `href`s of the
  `a.base-card__full-link` elements of the page at `url`, in page order.
 */
module JobScraper {

  const SearchPrefix: string := "https://www.linkedin.com/jobs/search/?keywords="

  /** Links kept per skill (`job_elements[:5]`). */
  const PerSkill: nat := 5

  /** The search URL, with the skill pasted in as it is (no URL encoding). */
  function SearchUrl(skill: string): string {
    SearchPrefix + skill
  }

  /** Python's `xs[:n]`: the first `n` elements, or all of them when there are fewer. */
  function Take(xs: seq<string>, n: nat): (r: seq<string>)
    ensures |r| == if |xs| <= n then |xs| else n
    ensures r <= xs
  {
    if |xs| <= n then xs else xs[..n]
  }

  /** The links kept for one skill: the first five on its search page, in page order. */
  function TopLinks(skill: string, linksAt: string -> seq<string>): (links: seq<string>)
    ensures links <= linksAt(SearchUrl(skill))
    ensures |links| <= PerSkill
    ensures |linksAt(SearchUrl(skill))| >= PerSkill ==> |links| == PerSkill
  {
    Take(linksAt(SearchUrl(skill)), PerSkill)
  }

  /** The URLs the browser visits, one per skill, in order. */
  function Visits(skills: seq<string>): (urls: seq<string>)
    ensures |urls| == |skills|
    ensures forall k :: 0 <= k < |skills| ==> urls[k] == SearchUrl(skills[k])
  {
    seq(|skills|, k requires 0 <= k < |skills| => SearchUrl(skills[k]))
  }

  /** `job_links` after the loop: each skill's top links appended in skill order. */
  function ScrapeJobs(skills: seq<string>, linksAt: string -> seq<string>): (links: seq<string>)
    ensures |links| <= PerSkill * |skills|
    decreases |skills|
  {
    if |skills| == 0 then []
    else
      var before := skills[..|skills| - 1];
      ScrapeJobs(before, linksAt) + TopLinks(skills[|skills| - 1], linksAt)
  }

  /** Scraping a list of skills is scraping its two halves one after the other. */
  lemma {:induction false} ScrapeAppend(a: seq<string>, b: seq<string>, linksAt: string -> seq<string>)
    ensures ScrapeJobs(a + b, linksAt) == ScrapeJobs(a, linksAt) + ScrapeJobs(b, linksAt)
    decreases |b|
  {
    if |b| == 0 {
      assert a + b == a;
    } else {
      var b' := b[..|b| - 1];
      assert (a + b)[..|a + b| - 1] == a + b';
      ScrapeAppend(a, b', linksAt);
    }
  }

  /**
    The result is ordered by skill, then by page order: skill `k`'s top links sit
    right after those of the skills before it.
   */
  lemma SkillBlock(skills: seq<string>, k: nat, linksAt: string -> seq<string>)
    requires k < |skills|
    ensures var links := ScrapeJobs(skills, linksAt);
      var start := |ScrapeJobs(skills[..k], linksAt)|;
      var top := TopLinks(skills[k], linksAt);
      start + |top| <= |links| && links[start..start + |top|] == top
  {
    var front := skills[..k];
    var back := skills[k + 1..];
    assert skills == front + [skills[k]] + back;
    ScrapeAppend(front + [skills[k]], back, linksAt);
    ScrapeAppend(front, [skills[k]], linksAt);
    assert ScrapeJobs([skills[k]], linksAt) == TopLinks(skills[k], linksAt) by {
      assert [skills[k]][..0] == [];
    }
  }

  /** Every kept link is one of the first five links of some skill's page. */
  lemma {:induction false} LinksComeFromSkills(skills: seq<string>, linksAt: string -> seq<string>, link: string)
    requires link in ScrapeJobs(skills, linksAt)
    ensures exists k :: 0 <= k < |skills| && link in TopLinks(skills[k], linksAt)
    decreases |skills|
  {
    var before := skills[..|skills| - 1];
    var last := skills[|skills| - 1];
    if link in ScrapeJobs(before, linksAt) {
      LinksComeFromSkills(before, linksAt, link);
      var k :| 0 <= k < |before| && link in TopLinks(before[k], linksAt);
      assert before[k] == skills[k];
    } else {
      assert link in TopLinks(last, linksAt);
    }
  }

  /** When every page has at least five links, exactly five are kept per skill. */
  lemma {:induction false} FullPages(skills: seq<string>, linksAt: string -> seq<string>)
    requires forall k :: 0 <= k < |skills| ==> |linksAt(SearchUrl(skills[k]))| >= PerSkill
    ensures |ScrapeJobs(skills, linksAt)| == PerSkill * |skills|
    decreases |skills|
  {
    if |skills| > 0 {
      var before := skills[..|skills| - 1];
      assert forall k :: 0 <= k < |before| ==> before[k] == skills[k];
      FullPages(before, linksAt);
    }
  }

  /** The result depends only on the pages opened: two link functions that agree on the visited URLs scrape the same links. */
  lemma {:induction false} ScrapeReadsOnlyVisited(skills: seq<string>, f: string -> seq<string>, g: string -> seq<string>)
    requires forall u :: u in Visits(skills) ==> f(u) == g(u)
    ensures ScrapeJobs(skills, f) == ScrapeJobs(skills, g)
    decreases |skills|
  {
    if |skills| > 0 {
      var before := skills[..|skills| - 1];
      var urls := Visits(skills);
      forall u | u in Visits(before) ensures f(u) == g(u) {
        var k :| 0 <= k < |before| && Visits(before)[k] == u;
        assert urls[k] == u;
      }
      ScrapeReadsOnlyVisited(before, f, g);
      assert urls[|skills| - 1] in urls;
    }
  }
}
