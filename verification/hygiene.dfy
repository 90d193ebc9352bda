/** The hygiene scan: one pass over the sorted repository list that skips
    forks, emits a report per repository and keeps five failure counters,
    followed by one summary line per counter and the total
    (main.go:85-207). */
module Hygiene {
  import opened Repository
  import opened UpdateOrder

  /** One line of a repository's report, without its styling. */
  datatype Line =
    | HasDescription(text: string)
    | NoDescription
    | BranchIs(branch: string)
    | BranchIsMaster
    | HasReadme
    | NoReadme
    | UnreadableReadme
    | HasImage
    | NoImage
    | LongEnough(length: nat)
    | TooShort(length: nat)
  {
    /** The counters that are incremented together with this line. */
    predicate Flags(rule: Rule) {
      match this
      case NoDescription => rule == Description
      case BranchIsMaster => rule == Branch
      case NoReadme => rule == Readme || rule == Image
      case UnreadableReadme => rule == Image || rule == Length
      case NoImage => rule == Image
      case TooShort(_) => rule == Length
      case _ => false
    }
  }

  /** The report of one repository: its name and its lines in order. */
  datatype Report = Report(name: string, lines: seq<Line>)

  /** The five counters of the scan. */
  datatype Tally = Tally(
    missingDescription: nat,
    missingReadme: nat,
    shortReadme: nat,
    missingImage: nat,
    masterBranch: nat)
  {
    /** The counter kept for `rule`. */
    function Get(rule: Rule): nat {
      match rule
      case Description => missingDescription
      case Readme => missingReadme
      case Image => missingImage
      case Length => shortReadme
      case Branch => masterBranch
    }
  }

  /** A summary line: every repository passes the rule, or `count` fail it. */
  datatype SummaryLine = AllPass(rule: Rule) | SomeFail(rule: Rule, count: nat)

  /** The closing summary: one line per rule, then the total printed. */
  datatype Summary = Summary(lines: seq<SummaryLine>, total: nat)

  /** The account listing: the repositories, or the error that ends the run. */
  datatype Listing = ListError(message: string) | Listed(repos: seq<Repo>)

  /** What one run prints, in structured form. */
  datatype RunOutcome =
    | Aborted(message: string)
    | Completed(reports: seq<Report>, summary: Summary)

  /** The order of the summary lines. */
  const SUMMARY_ORDER: seq<Rule> := [Description, Readme, Image, Length, Branch]

  /** Number of repositories of `s` that are not forks. */
  function NonForks(s: seq<Repo>): (n: nat)
    ensures n <= |s|
  {
    if s == [] then 0 else NonForks(s[..|s| - 1]) + (if s[|s| - 1].fork then 0 else 1)
  }

  /** Number of non-fork repositories of `s` that fail `rule`: what the
      scan's counter for `rule` is meant to hold after visiting `s`. */
  function CountFailing(rule: Rule, s: seq<Repo>): nat {
    if s == [] then 0
    else
      var last := s[|s| - 1];
      CountFailing(rule, s[..|s| - 1]) + (if !last.fork && Fails(rule, last) then 1 else 0)
  }

  /** The counters a scan of `s` ends with. */
  function TallyOf(s: seq<Repo>): Tally {
    Tally(CountFailing(Description, s), CountFailing(Readme, s), CountFailing(Length, s),
          CountFailing(Image, s), CountFailing(Branch, s))
  }

  /** The report the scan emits for a non-fork repository. */
  function ReportOf(repo: Repo): (r: Report)
    ensures r.name == repo.name
    ensures 3 <= |r.lines| <= 5
    ensures r.lines[0] == (if repo.description == "" then NoDescription else HasDescription(repo.description))
    ensures r.lines[1] == (if repo.defaultBranch == MASTER then BranchIsMaster else BranchIs(repo.defaultBranch))
    ensures r.lines[2] == (if repo.readme.LookupError? then NoReadme else HasReadme)
    ensures |r.lines| == 3 <==> repo.readme.LookupError?
    ensures |r.lines| == 5 <==> repo.readme.Decoded?
    ensures repo.readme.DecodeError? ==> r.lines[3] == UnreadableReadme
    ensures repo.readme.Decoded? ==>
      var text := repo.readme.text;
      r.lines[3] == (if Contains(text, IMAGE_MARKER) then HasImage else NoImage)
      && r.lines[4] == (if |text| < MIN_README_LENGTH then TooShort(|text|) else LongEnough(|text|))
  {
    Report(repo.name, [DescriptionLine(repo.description), BranchLine(repo.defaultBranch)] + ReadmeLines(repo.readme))
  }

  /** The description line of a report. */
  function DescriptionLine(description: string): Line {
    if description == "" then NoDescription else HasDescription(description)
  }

  /** The default-branch line of a report. */
  function BranchLine(branch: string): Line {
    if branch == MASTER then BranchIsMaster else BranchIs(branch)
  }

  /** The README lines of a report: presence, then image and length when the
      text could be read. */
  function ReadmeLines(readme: ReadmeLookup): seq<Line> {
    match readme
    case LookupError => [NoReadme]
    case DecodeError => [HasReadme, UnreadableReadme]
    case Decoded(text) =>
      [HasReadme,
       if Contains(text, IMAGE_MARKER) then HasImage else NoImage,
       if |text| < MIN_README_LENGTH then TooShort(|text|) else LongEnough(|text|)]
  }

  /** A report shows a failing line for exactly the rules whose counters the
      repository bumps. */
  lemma ReportFlagsFailures(repo: Repo, rule: Rule)
    ensures Fails(rule, repo) <==> exists k :: 0 <= k < |ReportOf(repo).lines| && ReportOf(repo).lines[k].Flags(rule)
  {
    var lines := ReportOf(repo).lines;
    if Fails(rule, repo) {
      match rule
      case Description => assert lines[0].Flags(rule);
      case Branch => assert lines[1].Flags(rule);
      case Readme => assert lines[2].Flags(rule);
      case Image =>
        if repo.readme.LookupError? { assert lines[2].Flags(rule); } else { assert lines[3].Flags(rule); }
      case Length =>
        if repo.readme.DecodeError? { assert lines[3].Flags(rule); } else { assert lines[4].Flags(rule); }
    }
  }

  /** The reports the scan emits for `s`: one per non-fork repository, in order. */
  function ReportsOf(s: seq<Repo>): seq<Report> {
    if s == [] then []
    else
      var last := s[|s| - 1];
      ReportsOf(s[..|s| - 1]) + (if last.fork then [] else [ReportOf(last)])
  }

  /** The summary line for one rule, given its counter. */
  function LineFor(rule: Rule, count: nat): (l: SummaryLine)
    ensures l.rule == rule
    ensures l.SomeFail? <==> count > 0
    ensures l.SomeFail? ==> l.count == count
  {
    if count > 0 then SomeFail(rule, count) else AllPass(rule)
  }

  /** The closing summary for counters `t` and `total` listed repositories. */
  function Summarize(t: Tally, total: nat): (s: Summary)
    ensures |s.lines| == |SUMMARY_ORDER| && s.total == total
    ensures forall k :: 0 <= k < |s.lines| ==>
      s.lines[k].rule == SUMMARY_ORDER[k]
      && (s.lines[k].SomeFail? <==> t.Get(SUMMARY_ORDER[k]) > 0)
      && (s.lines[k].SomeFail? ==> s.lines[k].count == t.Get(SUMMARY_ORDER[k]))
  {
    Summary(
      [LineFor(Description, t.missingDescription),
       LineFor(Readme, t.missingReadme),
       LineFor(Image, t.missingImage),
       LineFor(Length, t.shortReadme),
       LineFor(Branch, t.masterBranch)],
      total)
  }

  /** Appending one repository changes a counter by at most one: by one
      exactly when the repository is not a fork and fails the rule. */
  lemma CountStep(rule: Rule, s: seq<Repo>, repo: Repo)
    ensures CountFailing(rule, s + [repo]) == CountFailing(rule, s) + (if !repo.fork && Fails(rule, repo) then 1 else 0)
  {
    assert (s + [repo])[..|s|] == s;
  }

  /** Appending one repository adds its report unless it is a fork. */
  lemma ReportsStep(s: seq<Repo>, repo: Repo)
    ensures NonForks(s + [repo]) == NonForks(s) + (if repo.fork then 0 else 1)
    ensures ReportsOf(s + [repo]) == ReportsOf(s) + (if repo.fork then [] else [ReportOf(repo)])
  {
    assert (s + [repo])[..|s|] == s;
  }

  /** A fork changes no counter and adds no report. */
  lemma ForkIgnored(s: seq<Repo>, repo: Repo)
    requires repo.fork
    ensures TallyOf(s + [repo]) == TallyOf(s)
    ensures ReportsOf(s + [repo]) == ReportsOf(s)
    ensures NonForks(s + [repo]) == NonForks(s)
  {
    CountStep(Description, s, repo);
    CountStep(Readme, s, repo);
    CountStep(Image, s, repo);
    CountStep(Length, s, repo);
    CountStep(Branch, s, repo);
    ReportsStep(s, repo);
  }

  /** What one non-fork repository adds to each counter and to the reports,
      rule by rule. */
  lemma NonForkStep(s: seq<Repo>, repo: Repo)
    requires !repo.fork
    ensures CountFailing(Description, s + [repo])
      == CountFailing(Description, s) + (if repo.description == "" then 1 else 0)
    ensures CountFailing(Branch, s + [repo])
      == CountFailing(Branch, s) + (if repo.defaultBranch == MASTER then 1 else 0)
    ensures CountFailing(Readme, s + [repo])
      == CountFailing(Readme, s) + (if repo.readme.LookupError? then 1 else 0)
    ensures CountFailing(Image, s + [repo])
      == CountFailing(Image, s) + (if repo.readme.Decoded? && Contains(repo.readme.text, IMAGE_MARKER) then 0 else 1)
    ensures CountFailing(Length, s + [repo])
      == CountFailing(Length, s) + (if repo.readme.DecodeError? || (repo.readme.Decoded? && |repo.readme.text| < MIN_README_LENGTH) then 1 else 0)
    ensures NonForks(s + [repo]) == NonForks(s) + 1
    ensures ReportsOf(s + [repo]) == ReportsOf(s) + [ReportOf(repo)]
  {
    RuleConditions(repo);
    CountStep(Description, s, repo);
    CountStep(Readme, s, repo);
    CountStep(Image, s, repo);
    CountStep(Length, s, repo);
    CountStep(Branch, s, repo);
    ReportsStep(s, repo);
  }

  /** The five rules in terms of the repository's fields. */
  lemma RuleConditions(repo: Repo)
    ensures Fails(Description, repo) == (repo.description == "")
    ensures Fails(Branch, repo) == (repo.defaultBranch == MASTER)
    ensures Fails(Readme, repo) == repo.readme.LookupError?
    ensures Fails(Image, repo) == !(repo.readme.Decoded? && Contains(repo.readme.text, IMAGE_MARKER))
    ensures Fails(Length, repo) == (repo.readme.DecodeError? || (repo.readme.Decoded? && |repo.readme.text| < MIN_README_LENGTH))
  {
  }

  /** How the README outcome of a non-fork repository moves the three README
      counters. */
  lemma ReadmeCounters(s: seq<Repo>, repo: Repo)
    requires !repo.fork
    ensures var before, after := TallyOf(s), TallyOf(s + [repo]);
      match repo.readme
      case LookupError =>
        after.missingReadme == before.missingReadme + 1
        && after.missingImage == before.missingImage + 1
        && after.shortReadme == before.shortReadme
      case DecodeError =>
        after.missingReadme == before.missingReadme
        && after.missingImage == before.missingImage + 1
        && after.shortReadme == before.shortReadme + 1
      case Decoded(text) =>
        after.missingReadme == before.missingReadme
        && (after.missingImage == before.missingImage + 1 <==> !Contains(text, IMAGE_MARKER))
        && (after.missingImage == before.missingImage <==> Contains(text, IMAGE_MARKER))
        && (after.shortReadme == before.shortReadme + 1 <==> |text| < MIN_README_LENGTH)
        && (after.shortReadme == before.shortReadme <==> |text| >= MIN_README_LENGTH)
  {
    CountStep(Readme, s, repo);
    CountStep(Image, s, repo);
    CountStep(Length, s, repo);
  }

  /** No counter exceeds the number of non-fork repositories seen. */
  lemma {:induction false} CountBound(rule: Rule, s: seq<Repo>)
    ensures CountFailing(rule, s) <= NonForks(s)
  {
    if s != [] {
      CountBound(rule, s[..|s| - 1]);
    }
  }

  /** Every failed README lookup is also counted as a missing image. */
  lemma {:induction false} ReadmeBelowImage(s: seq<Repo>)
    ensures CountFailing(Readme, s) <= CountFailing(Image, s)
  {
    if s != [] {
      ReadmeBelowImage(s[..|s| - 1]);
    }
  }

  lemma {:induction false} CountAppend(rule: Rule, s: seq<Repo>, u: seq<Repo>)
    ensures CountFailing(rule, s + u) == CountFailing(rule, s) + CountFailing(rule, u)
    decreases |u|
  {
    if u == [] {
      assert s + u == s;
    } else {
      var init := u[..|u| - 1];
      assert (s + u)[..|s + u| - 1] == s + init;
      CountAppend(rule, s, init);
    }
  }

  /** Taking the repository at `k` out of the listing lowers a counter by
      exactly that repository's share. */
  lemma CountRemove(rule: Rule, u: seq<Repo>, k: int)
    requires 0 <= k < |u|
    ensures CountFailing(rule, u) == CountFailing(rule, u[..k] + u[k + 1..]) + CountFailing(rule, [u[k]])
  {
    var front, back := u[..k], u[k + 1..];
    assert u == front + ([u[k]] + back);
    CountAppend(rule, front, [u[k]] + back);
    CountAppend(rule, [u[k]], back);
    CountAppend(rule, front, back);
  }

  lemma RemoveMultiset(u: seq<Repo>, k: int)
    requires 0 <= k < |u|
    ensures multiset(u[..k] + u[k + 1..]) + multiset{u[k]} == multiset(u)
  {
    assert u == u[..k] + [u[k]] + u[k + 1..];
  }

  /** A counter depends only on the multiset of listed repositories, not on
      their order. */
  lemma {:induction false} CountPermutation(rule: Rule, s: seq<Repo>, u: seq<Repo>)
    requires multiset(s) == multiset(u)
    ensures CountFailing(rule, s) == CountFailing(rule, u)
    decreases |s|
  {
    if s == [] {
      assert |u| == |multiset(u)| == 0;
    } else {
      var init, x := s[..|s| - 1], s[|s| - 1];
      assert s == init + [x];
      assert x in multiset(u);
      var k :| 0 <= k < |u| && u[k] == x;
      var rest := u[..k] + u[k + 1..];
      RemoveMultiset(u, k);
      assert multiset(s) == multiset(init) + multiset{x};
      assert multiset(rest) == multiset(u) - multiset{x};
      assert multiset(init) == multiset(s) - multiset{x};
      CountPermutation(rule, init, rest);
      CountRemove(rule, u, k);
      CountAppend(rule, init, [x]);
    }
  }

  /** The five counters depend only on which repositories are listed, not on
      their order. */
  lemma TallyPermutation(s: seq<Repo>, u: seq<Repo>)
    requires multiset(s) == multiset(u)
    ensures TallyOf(s) == TallyOf(u)
  {
    CountPermutation(Description, s, u);
    CountPermutation(Readme, s, u);
    CountPermutation(Image, s, u);
    CountPermutation(Length, s, u);
    CountPermutation(Branch, s, u);
  }

  /** Sorting the listing does not change the five counters. */
  lemma SortKeepsTally(s: seq<Repo>)
    ensures TallyOf(StableSortByUpdate(s)) == TallyOf(s)
  {
    StableSortCorrect(s);
    TallyPermutation(StableSortByUpdate(s), s);
  }

  /** The per-repository loop of the scan (main.go:102-175): skips forks,
      applies the five rules to every other repository in order, emits its
      report and bumps the counters of the rules it fails. */
  method Scan(repos: seq<Repo>) returns (reports: seq<Report>, tally: Tally)
    ensures tally == TallyOf(repos)
    ensures reports == ReportsOf(repos)
    ensures |reports| == NonForks(repos)
    ensures forall rule :: tally.Get(rule) <= NonForks(repos)
    ensures tally.missingReadme <= tally.missingImage
  {
    var missingDescriptionCount, missingReadmeCount, shortReadmeCount := 0, 0, 0;
    var missingImageCount, masterBranchCount := 0, 0;
    reports := [];
    ghost var seen: seq<Repo> := [];
    for i := 0 to |repos|
      invariant seen == repos[..i]
      invariant missingDescriptionCount == CountFailing(Description, seen)
      invariant missingReadmeCount == CountFailing(Readme, seen)
      invariant shortReadmeCount == CountFailing(Length, seen)
      invariant missingImageCount == CountFailing(Image, seen)
      invariant masterBranchCount == CountFailing(Branch, seen)
      invariant reports == ReportsOf(seen)
      invariant |reports| == NonForks(seen)
    {
      var repo := repos[i];
      assert repos[..i + 1] == seen + [repo];
      if repo.fork {
        ForkIgnored(seen, repo);
        seen := seen + [repo];
        continue;
      }
      NonForkStep(seen, repo);
      seen := seen + [repo];

      var descriptionLine, branchLine;
      var readmeLines: seq<Line>;

      if repo.description == "" {
        descriptionLine := NoDescription;
        missingDescriptionCount := missingDescriptionCount + 1;
      } else {
        descriptionLine := HasDescription(repo.description);
      }

      if repo.defaultBranch == MASTER {
        branchLine := BranchIsMaster;
        masterBranchCount := masterBranchCount + 1;
      } else {
        branchLine := BranchIs(repo.defaultBranch);
      }

      match repo.readme {
        case LookupError =>
          readmeLines := [NoReadme];
          missingReadmeCount := missingReadmeCount + 1;
          missingImageCount := missingImageCount + 1;
        case DecodeError =>
          readmeLines := [HasReadme, UnreadableReadme];
          missingImageCount := missingImageCount + 1;
          shortReadmeCount := shortReadmeCount + 1;
        case Decoded(text) =>
          var imageLine, lengthLine;
          if Contains(text, IMAGE_MARKER) {
            imageLine := HasImage;
          } else {
            imageLine := NoImage;
            missingImageCount := missingImageCount + 1;
          }
          if |text| < MIN_README_LENGTH {
            lengthLine := TooShort(|text|);
            shortReadmeCount := shortReadmeCount + 1;
          } else {
            lengthLine := LongEnough(|text|);
          }
          readmeLines := [HasReadme, imageLine, lengthLine];
      }

      assert descriptionLine == DescriptionLine(repo.description);
      assert branchLine == BranchLine(repo.defaultBranch);
      assert readmeLines == ReadmeLines(repo.readme);
      var lines := [descriptionLine, branchLine] + readmeLines;
      reports := reports + [Report(repo.name, lines)];
    }
    assert seen == repos;
    tally := Tally(missingDescriptionCount, missingReadmeCount, shortReadmeCount,
                   missingImageCount, masterBranchCount);
    forall rule ensures tally.Get(rule) <= NonForks(repos) {
      CountBound(rule, repos);
    }
    ReadmeBelowImage(repos);
  }

  /** A 120-byte README that opens with an image. */
  function IllustratedReadme(): (text: seq<byte>)
    ensures |text| == 120 && Contains(text, IMAGE_MARKER)
  {
    var text := [0x21, 0x5B] + seq(118, k => 0x61);
    assert OccursAt(text, IMAGE_MARKER, 0);
    text
  }

  /** A forked repository, a bare one and a tidy one, for the example below. */
  const FORKED := Repo("forked", true, "", MASTER, 1, LookupError)
  const BARE := Repo("bare", false, "", "main", 2, LookupError)
  const TIDY := Repo("tidy", false, "A tidy project", "main", 3, Decoded(IllustratedReadme()))

  /** The first two repositories of the example: the fork is skipped and the
      bare repository fails description, README and image. */
  lemma ForkThenBare()
    ensures TallyOf([FORKED, BARE]) == Tally(1, 1, 0, 1, 0)
    ensures ReportsOf([FORKED, BARE]) == [ReportOf(BARE)]
    ensures NonForks([FORKED, BARE]) == 1
  {
    assert [FORKED] == [] + [FORKED] && [FORKED, BARE] == [FORKED] + [BARE];
    ForkIgnored([], FORKED);
    NonForkStep([FORKED], BARE);
  }

  /** An account with a fork, a bare repository and a tidy one: the fork is
      skipped, the bare one fails description, README and image, the tidy one
      fails nothing, and the printed total still counts the fork. */
  lemma ThreeRepositoryAccount()
    ensures
      var s := [FORKED, BARE, TIDY];
      TallyOf(s) == Tally(1, 1, 0, 1, 0)
      && ReportsOf(s) == [ReportOf(BARE), ReportOf(TIDY)]
      && NonForks(s) == 2
      && Summarize(TallyOf(s), |s|).total == 3
  {
    ForkThenBare();
    assert [FORKED, BARE, TIDY] == [FORKED, BARE] + [TIDY];
    RuleConditions(TIDY);
    CleanStep([FORKED, BARE], TIDY);
  }

  /** A non-fork repository that breaks no rule leaves every counter as it
      was and adds only its report. */
  lemma CleanStep(s: seq<Repo>, repo: Repo)
    requires !repo.fork && forall rule :: !Fails(rule, repo)
    ensures TallyOf(s + [repo]) == TallyOf(s)
    ensures ReportsOf(s + [repo]) == ReportsOf(s) + [ReportOf(repo)]
    ensures NonForks(s + [repo]) == NonForks(s) + 1
  {
    CountStep(Description, s, repo);
    CountStep(Readme, s, repo);
    CountStep(Image, s, repo);
    CountStep(Length, s, repo);
    CountStep(Branch, s, repo);
    ReportsStep(s, repo);
  }

  /** One run for an account (main.go:85-207): a listing error ends the run
      with that message; otherwise the listing is sorted oldest update first,
      scanned, and summarised with the number of repositories listed, forks
      included. */
  method Run(listing: Listing) returns (outcome: RunOutcome)
    ensures listing.ListError? ==> outcome == Aborted(listing.message)
    ensures listing.Listed? ==>
      outcome == Completed(ReportsOf(StableSortByUpdate(listing.repos)),
                           Summarize(TallyOf(listing.repos), |listing.repos|))
  {
    match listing {
      case ListError(message) =>
        outcome := Aborted(message);
      case Listed(repos) =>
        var a := new Repo[|repos|](k requires 0 <= k < |repos| => repos[k]);
        assert a[..] == repos;
        SortByUpdate(a);
        var reports, tally := Scan(a[..]);
        SortKeepsTally(repos);
        outcome := Completed(reports, Summarize(tally, a.Length));
    }
  }
}
