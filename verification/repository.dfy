/** The repository records the scanner receives from the hosting service, and
    the five hygiene rules it applies to each of them (main.go:112-167). */
module Repository {

  /** One byte of a Go string; README text is measured and searched bytewise. */
  newtype byte = x: int | 0 <= x < 256

  /** What looking up README.md and decoding it produced for a repository.
      The lookup and the decoding are calls into the hosting service's client
      library; the model receives their outcome as data. */
  datatype ReadmeLookup =
    | LookupError              // GetContents returned an error
    | DecodeError              // the file was found but GetContent failed
    | Decoded(text: seq<byte>) // the README text, as bytes

  /** A repository as listed for the account. Optional API fields are taken
      as present. */
  datatype Repo = Repo(
    name: string,
    fork: bool,
    description: string,
    defaultBranch: string,
    updatedAt: int,
    readme: ReadmeLookup)

  /** The five hygiene rules, in the order the summary reports them. */
  datatype Rule = Description | Readme | Image | Length | Branch

  /** `![`, the start of a Markdown image. */
  const IMAGE_MARKER: seq<byte> := [0x21, 0x5B]

  /** README texts shorter than this many bytes are too short. */
  const MIN_README_LENGTH: nat := 100

  /** The branch name that the default-branch rule flags. */
  const MASTER: string := "master"

  /** Whether `sub` occurs in `s` starting at byte offset `i`. */
  predicate OccursAt(s: seq<byte>, sub: seq<byte>, i: int) {
    0 <= i <= |s| - |sub| && s[i..i + |sub|] == sub
  }

  /** Byte-wise substring search, as Go's strings.Contains. */
  function Contains(s: seq<byte>, sub: seq<byte>): (b: bool)
    ensures b <==> exists i :: OccursAt(s, sub, i)
    decreases |s|
  {
    if |s| < |sub| then
      false
    else if s[..|sub|] == sub then
      assert OccursAt(s, sub, 0);
      true
    else
      var rest := Contains(s[1..], sub);
      if rest then
        var i :| OccursAt(s[1..], sub, i);
        assert OccursAt(s, sub, i + 1);
        true
      else
        assert forall i :: OccursAt(s, sub, i) ==> i == 0 || OccursAt(s[1..], sub, i - 1);
        false
  }

  /** Whether `repo` breaks `rule`: the condition under which the scan loop
      increments that rule's counter for a non-fork repository. */
  predicate Fails(rule: Rule, repo: Repo) {
    match rule
    case Description => repo.description == ""
    case Branch => repo.defaultBranch == MASTER
    case Readme => repo.readme.LookupError?
    case Image =>
      (match repo.readme
       case LookupError => true
       case DecodeError => true
       case Decoded(text) => !Contains(text, IMAGE_MARKER))
    case Length =>
      (match repo.readme
       case LookupError => false
       case DecodeError => true
       case Decoded(text) => |text| < MIN_README_LENGTH)
  }

  /** The README rules as the source groups them: a failed lookup fails the
      presence and image rules and leaves the length rule alone; a failed
      decoding passes presence and fails both image and length; decoded text
      fails the image rule exactly when it has no `![` anywhere and the length
      rule exactly when it is under 100 bytes. */
  lemma ReadmeRules(repo: Repo)
    ensures repo.readme.LookupError? ==>
      Fails(Readme, repo) && Fails(Image, repo) && !Fails(Length, repo)
    ensures repo.readme.DecodeError? ==>
      !Fails(Readme, repo) && Fails(Image, repo) && Fails(Length, repo)
    ensures repo.readme.Decoded? ==>
      var text := repo.readme.text;
      !Fails(Readme, repo)
      && (Fails(Image, repo) <==> forall i :: 0 <= i < |text| - 1 ==> !(text[i] == 0x21 && text[i + 1] == 0x5B))
      && (Fails(Length, repo) <==> |text| < MIN_README_LENGTH)
  {
    if repo.readme.Decoded? {
      var text := repo.readme.text;
      if Contains(text, IMAGE_MARKER) {
        var i :| OccursAt(text, IMAGE_MARKER, i);
        assert text[i..i + 2][0] == 0x21 && text[i..i + 2][1] == 0x5B;
      } else {
        forall i | 0 <= i < |text| - 1
          ensures OccursAt(text, IMAGE_MARKER, i) <==> text[i] == 0x21 && text[i + 1] == 0x5B
        {
          assert text[i..i + 2] == [text[i], text[i + 1]];
        }
      }
    }
  }
}
