# GitHub profile scanner: the hygiene scan, in Dafny

The scanner lists an account's repositories and grades each one against five
"repository hygiene" rules. This project models the part of `main` that
decides things (main.go:92-207):

- **Ordering.** The listing is sorted in place with a stable sort, oldest
  `UpdatedAt` first (main.go:98-100).
- **Per-repository rules.** The loop skips forks (main.go:103-105). For every
  other repository it emits a report and bumps the counter of each of the five
  rules the repository breaks:
  - description: the description is exactly the empty string;
  - README: README.md cannot be looked up;
  - image: the lookup or the decoding fails, or the text has no `![`;
  - length: the decoding fails, or the text is shorter than 100 bytes;
  - branch: the default branch is exactly `master`.
- **Summary.** Each counter yields either an "all repositories pass" line or
  an "N repositories fail" line. A total follows (main.go:177-207).

Modules:

- `Repository` (repository.dfy) holds the repository record and the README
  lookup outcome. It also has byte-wise `Contains` (Go's `strings.Contains`)
  and `Fails(rule, repo)`, which says when the loop bumps each rule's counter.
- `UpdateOrder` (update_order.dfy) holds the stable sort. `StableSortByUpdate`
  is the reference: a functional insertion sort. Lemmas prove it sorted, a
  permutation, and stable. Stability is stated as `SameTies`: for every
  timestamp, the records carrying it appear in the same relative order as in
  the input. `SortByUpdate` sorts an `array` in place, and is proved equal to
  the reference.
- `Hygiene` (hygiene.dfy) holds the scan. `Scan` is the loop: five local
  counters and a growing sequence of reports, with loop invariants that tie
  each counter to `CountFailing(rule, prefix)`. `Summarize` picks the summary
  lines. `Run` is one whole run: a listing error aborts it; otherwise it sorts,
  scans and summarises.

Facts about the code that the model keeps:

- A README that is found but cannot be decoded bumps both the missing-image
  counter and the short-README counter, so the length rule is not skipped
  (main.go:146-149).
- The printed total is `len(repos)`, which counts forks (main.go:207).
  `ThreeRepositoryAccount` shows an account whose total is 3 while only 2
  repositories were graded.
- Forks are not removed before sorting. They are sorted along with the rest
  and skipped inside the loop (main.go:98-105).
- README length is Go's `len` on a string, which is a byte count. The text is
  therefore a `seq<byte>`, and `![` is the two bytes 0x21 0x5B.

## Model

| member | source | states |
|---|---|---|
| `Repository.Contains` | main.go:151 | the README search is true exactly when the pattern occurs at some byte offset of the text |
| `Repository.ReadmeRules` | main.go:133-167 | a failed lookup fails presence and image but not length. A failed decoding passes presence and fails image and length. Decoded text fails the image rule iff no `!` is directly followed by `[`, and fails the length rule iff it is under 100 bytes |
| `UpdateOrder.StampedAtMembers` | main.go:98-100 | the records of one timestamp are exactly the input's records with that timestamp |
| `UpdateOrder.InsertKeepsTies` | main.go:98-100 | inserting a record in front of the first record that is not older keeps every timestamp's records in the order of `[x] + s` |
| `UpdateOrder.StableSortCorrect` | main.go:98-100 | the reference sort is non-decreasing in `UpdatedAt`, keeps the records of each timestamp in input order, and is a permutation of its input |
| `UpdateOrder.SortedTiesUnique` | main.go:98-100 | two sorted sequences with the same records per timestamp are equal, so every stable sort of a listing gives the same order |
| `UpdateOrder.SwapKeepsTies` | main.go:98-100 | exchanging two neighbours with different timestamps keeps every timestamp's records in order |
| `UpdateOrder.SwapAdjacent` | main.go:98-100 | the array afterwards is the old one with the two neighbours exchanged, with the same multiset and the same records per timestamp |
| `UpdateOrder.SinkInto` | main.go:98-100 | afterwards the first `i + 1` records are sorted, keep their records per timestamp, and equal `StableSortByUpdate` of the old first `i + 1` records. Everything after index `i` is unchanged, and the whole array keeps its multiset and its records per timestamp |
| `UpdateOrder.IsStableSort` | main.go:98-100 | any sequence that is sorted and has the input's records per timestamp is exactly `StableSortByUpdate` of the input |
| `UpdateOrder.SortByUpdate` | main.go:98-100 | the array afterwards is sorted oldest first, is a permutation of the input, keeps the input order among equal timestamps, and equals `StableSortByUpdate` of the input |
| `Hygiene.ReportOf` | main.go:107-170 | a report has the repository's name and 3 to 5 lines: the description line, the branch line, then README present or missing. 3 lines iff the lookup failed. After a decoding failure the fourth line is `UnreadableReadme`. For decoded text (5 lines) the fourth line says whether `![` occurs and the fifth whether the text is under 100 bytes, carrying its byte count |
| `Hygiene.ReportFlagsFailures` | main.go:112-167 | a repository fails a rule iff its report has a line that goes with that rule's counter |
| `Hygiene.LineFor` | main.go:177-205 | a summary line reports the count iff the counter is positive, and otherwise the "all repositories" line |
| `Hygiene.Summarize` | main.go:177-207 | five lines in the order description, README, image, length, branch. Each line reports its counter iff it is positive. The total is the one given |
| `Hygiene.CountStep` | main.go:102-175 | one more repository raises a counter by one when it is not a fork and fails the rule, and leaves it unchanged otherwise |
| `Hygiene.ReportsStep` | main.go:102-175 | one more repository adds its report unless it is a fork |
| `Hygiene.ForkIgnored` | main.go:103-105 | a fork changes no counter and adds no report |
| `Hygiene.NonForkStep` | main.go:112-167 | a non-fork repository adds one to each counter exactly under that rule's condition, written in terms of its fields, and appends its report |
| `Hygiene.CleanStep` | main.go:102-175 | a non-fork repository that breaks no rule leaves all five counters unchanged and adds only its report |
| `Hygiene.ReadmeCounters` | main.go:133-167 | a failed lookup bumps missing-README and missing-image and leaves short-README alone. A failed decoding bumps missing-image and short-README and leaves missing-README alone. Decoded text bumps missing-image iff there is no `![` and short-README iff it is under 100 bytes |
| `Hygiene.CountBound` | main.go:102-175 | no counter exceeds the number of non-fork repositories |
| `Hygiene.ReadmeBelowImage` | main.go:133-139 | the missing-README count never exceeds the missing-image count |
| `Hygiene.CountAppend` | main.go:102-175 | a counter over two consecutive stretches of the listing is the sum of the two |
| `Hygiene.CountPermutation` | main.go:102-175 | two listings with the same multiset of repositories give the same value for a counter, whatever their order |
| `Hygiene.TallyPermutation` | main.go:102-175 | two listings with the same multiset of repositories end with the same five counters |
| `Hygiene.SortKeepsTally` | main.go:98-175 | sorting the listing does not change the five counters |
| `Hygiene.Scan` | main.go:92-175 | the loop ends with each counter equal to the number of non-fork repositories failing its rule. There is one report per non-fork repository, in order. Every counter is at most the number of non-fork repositories. Missing-README is at most missing-image |
| `Hygiene.ThreeRepositoryAccount` | main.go:102-207 | for a fork, a bare repository and a tidy one, the counters are (1, 1, 0, 1, 0), there are two reports and the printed total is 3 |
| `Hygiene.Run` | main.go:85-207 | a listing error ends the run with its message. Otherwise the reports are those of the stable sort of the listing, the summary is computed from the counters of the listing, and the total is the listing's length |

## Left out

- Styling and output: the lipgloss styles, the boxed rendering, the text of
  the lines, and `println`/`Printf` (main.go:18-56, main.go:107-174). A report
  is a name and a sequence of line tags. Output is streamed in the source and
  returned as a sequence here.
- The report header's language and last-updated date (main.go:108-109). These
  are presentation only. The report keeps the repository name.
- The text of the decoding error appended to the report (main.go:147). It
  becomes the `UnreadableReadme` tag. The source writes it on the same output
  line as the README-present mark; the model keeps it as a line of its own.
- Argument and environment handling, and the building of the authenticated or
  anonymous HTTP client with its 1-second timeout (main.go:58-82).
- The hosting-service calls `Repositories.List`, `Repositories.GetContents`
  and `GetContent`, including base64 decoding (main.go:85, main.go:133,
  main.go:144). Their results are input data: a `Listing`, and a
  `ReadmeLookup` per repository. No error kinds are told apart beyond what
  the source distinguishes.
- `time.Time`: timestamps are integers compared with `<`, as `Before` compares
  instants.
- The nil-pointer dereferences of `Fork`, `Name` and `Language` (main.go:103,
  main.go:108, main.go:133). All fields are taken as present.
- The algorithm inside `sort.SliceStable` (insertion sort on blocks, then
  in-place merging) is not modelled. `SortByUpdate` uses insertion sort
  instead. `SortedTiesUnique` shows that any stable sort of the same listing
  gives the same order, so the result is the same.
- Description, branch and name are Dafny strings, not byte strings. The
  source only compares them for exact equality, which does not depend on the
  encoding.
