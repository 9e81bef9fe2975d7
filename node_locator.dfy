/**
 * `find_node_v20`: where to find an `npx` backed by Node.js 20 or later. The system `node`
 * wins when its major version qualifies; otherwise the nvm installation with the highest
 * qualifying major version is used, provided its `bin/npx` exists.
 */
module NodeLocator {

  import opened Wrappers
  import opened Text

  const MIN_MAJOR: nat := 20

  /**
   * What the host probes report. `versionOutput` is the standard output of `node --version`,
   * `None` when the command could not run or timed out; `nvmListing` is the listing of the nvm
   * versions directory, `None` when that is not a directory; `existing` holds the paths that exist.
   */
  datatype Probes = Probes(
    home: string,
    versionOutput: Option<string>,
    nvmListing: Option<seq<string>>,
    existing: set<string>)

  /** `(npx_path, bin_dir)`, or `(None, None)` as `NotFound`. */
  datatype NodeLookup = Found(npx: string, binDir: Option<string>) | NotFound

  /** A qualifying nvm installation: its major version and its directory name. */
  type Candidate = (nat, string)

  /** `~/.nvm/versions/node`. */
  function NvmDir(home: string): string {
    home + "/.nvm/versions/node"
  }

  function NvmBinDir(home: string, entry: string): string {
    NvmDir(home) + "/" + entry + "/bin"
  }

  /** `int(s.lstrip("v").split(".")[0])`, with `None` where `int` raises. */
  function ParseMajor(s: string): Option<nat> {
    ParseDecimal(FirstPiece(LStripV(s), '.'))
  }

  /** Whether the system `node` reports a major version of at least 20. */
  predicate SystemQualifies(versionOutput: Option<string>) {
    versionOutput.Some? &&
    match ParseMajor(Strip(versionOutput.value))
    case Some(major) => major >= MIN_MAJOR
    case None => false
  }

  /** The entry as a candidate, when its name parses to a qualifying major version. */
  function AsCandidate(entry: string): seq<Candidate> {
    match ParseMajor(entry)
    case Some(major) => if major >= MIN_MAJOR then [(major, entry)] else []
    case None => []
  }

  /** The `candidates` list, in listing order. */
  function Candidates(listing: seq<string>): seq<Candidate>
    decreases |listing|
  {
    if listing == [] then []
    else Candidates(listing[..|listing| - 1]) + AsCandidate(listing[|listing| - 1])
  }

  /** Python's `<` on `(major, entry)` tuples. */
  predicate CandidateLess(a: Candidate, b: Candidate) {
    a.0 < b.0 || (a.0 == b.0 && StrLess(a.1, b.1))
  }

  lemma CandidateLessTransitive(a: Candidate, b: Candidate, c: Candidate)
    requires CandidateLess(a, b) && CandidateLess(b, c)
    ensures CandidateLess(a, c)
  {
    if a.0 == b.0 == c.0 { StrLessTransitive(a.1, b.1, c.1); }
  }

  lemma CandidateLessTotal(a: Candidate, b: Candidate)
    requires a != b
    ensures CandidateLess(a, b) || CandidateLess(b, a)
  {
    if a.0 == b.0 { StrLessTotal(a.1, b.1); }
  }

  /** `sorted(candidates, reverse=True)[0]`: the greatest candidate. */
  function Best(cs: seq<Candidate>): (r: Candidate)
    requires |cs| > 0
    ensures r in cs
    ensures forall c :: c in cs ==> c == r || CandidateLess(c, r)
    decreases |cs|
  {
    if |cs| == 1 then cs[0]
    else
      var b := Best(cs[1..]);
      assert forall c :: c in cs ==> c == cs[0] || c in cs[1..];
      if CandidateLess(b, cs[0]) then
        assert forall c :: c in cs[1..] ==> c == cs[0] || CandidateLess(c, cs[0]) by {
          forall c | c in cs[1..] ensures c == cs[0] || CandidateLess(c, cs[0]) {
            if c != b { CandidateLessTransitive(c, b, cs[0]); }
          }
        }
        cs[0]
      else
        assert cs[0] == b || CandidateLess(cs[0], b) by {
          if cs[0] != b { CandidateLessTotal(cs[0], b); }
        }
        b
  }

  /** The outcome `find_node_v20` reaches for the given probe results. */
  function SelectNode(p: Probes): NodeLookup {
    if SystemQualifies(p.versionOutput) then Found("npx", None)
    else if p.nvmListing.None? then NotFound
    else
      var cs := Candidates(p.nvmListing.value);
      if cs == [] then NotFound
      else
        var binDir := NvmBinDir(p.home, Best(cs).1);
        if binDir + "/npx" in p.existing then Found(binDir + "/npx", Some(binDir)) else NotFound
  }

  /** `find_node_v20()`, with the probe results passed in. */
  method FindNodeV20(p: Probes) returns (r: NodeLookup)
    ensures r == SelectNode(p)
  {
    if SystemQualifies(p.versionOutput) {
      return Found("npx", None);
    }
    if p.nvmListing.Some? {
      var candidates := CollectCandidates(p.nvmListing.value);
      if candidates != [] {
        var best := Best(candidates).1;
        var binDir := NvmBinDir(p.home, best);
        var npxPath := binDir + "/npx";
        if npxPath in p.existing {
          return Found(npxPath, Some(binDir));
        }
      }
    }
    return NotFound;
  }

  /** The loop of `find_node_v20` over the nvm listing, collecting `(major, entry)` for each qualifying entry. */
  method CollectCandidates(listing: seq<string>) returns (candidates: seq<Candidate>)
    ensures candidates == Candidates(listing)
  {
    candidates := [];
    var i := 0;
    while i < |listing|
      invariant i <= |listing|
      invariant candidates == Candidates(listing[..i])
    {
      CandidatesStep(listing, i);
      ghost var next := Candidates(listing[..i]) + AsCandidate(listing[i]);
      var major := ParseMajor(listing[i]);
      if major.Some? && major.value >= MIN_MAJOR {
        candidates := candidates + [(major.value, listing[i])];
      } else {
        assert AsCandidate(listing[i]) == [] && next == candidates;
      }
      assert candidates == next;
      i := i + 1;
    }
    assert listing[..i] == listing;
  }

  /** An entry of the listing together with the major version its name parses to, when that is at least 20. */
  predicate Qualifies(entry: string, major: nat) {
    ParseMajor(entry) == Some(major) && major >= MIN_MAJOR
  }

  /** The candidates are exactly the listing's qualifying entries. */
  lemma {:induction false} InCandidates(listing: seq<string>, c: Candidate)
    ensures c in Candidates(listing) <==> c.1 in listing && Qualifies(c.1, c.0)
    decreases |listing|
  {
    if listing != [] {
      var n := |listing| - 1;
      InCandidates(listing[..n], c);
      assert listing == listing[..n] + [listing[n]];
    }
  }

  /** A system `node` of version 20 or later is always preferred, with no PATH to inject. */
  lemma SystemNodeWins(p: Probes)
    requires SystemQualifies(p.versionOutput)
    ensures SelectNode(p) == Found("npx", None)
  {
  }

  /**
   * Otherwise the chosen installation is the listed entry with the highest qualifying major
   * version, the larger name winning a tie, and its `bin/npx` exists.
   */
  lemma NvmChoiceIsHighest(p: Probes)
    requires !SystemQualifies(p.versionOutput) && SelectNode(p).Found?
    ensures p.nvmListing.Some?
    ensures exists best: string, major: nat ::
      && best in p.nvmListing.value && Qualifies(best, major)
      && SelectNode(p) == Found(NvmBinDir(p.home, best) + "/npx", Some(NvmBinDir(p.home, best)))
      && NvmBinDir(p.home, best) + "/npx" in p.existing
      && forall e: string, m: nat :: e in p.nvmListing.value && Qualifies(e, m) ==>
           (m, e) == (major, best) || CandidateLess((m, e), (major, best))
  {
    var listing := p.nvmListing.value;
    var cs := Candidates(listing);
    var b := Best(cs);
    InCandidates(listing, b);
    forall e: string, m: nat | e in listing && Qualifies(e, m)
      ensures (m, e) == b || CandidateLess((m, e), b)
    {
      InCandidates(listing, (m, e));
    }
  }

  /** Nothing is found exactly when no step qualifies. */
  lemma NotFoundIff(p: Probes)
    ensures SelectNode(p) == NotFound <==>
      && !SystemQualifies(p.versionOutput)
      && (p.nvmListing.None?
          || (forall e: string, m: nat :: e in p.nvmListing.value ==> !Qualifies(e, m))
          || (Candidates(p.nvmListing.value) != [] &&
              NvmBinDir(p.home, Best(Candidates(p.nvmListing.value)).1) + "/npx" !in p.existing))
  {
    if p.nvmListing.Some? {
      var listing := p.nvmListing.value;
      var cs := Candidates(listing);
      if cs == [] {
        forall e: string, m: nat | e in listing ensures !Qualifies(e, m) {
          InCandidates(listing, (m, e));
        }
      } else {
        InCandidates(listing, cs[0]);
      }
    }
  }

  /** A bin directory, when one is returned, is a non-empty path. */
  lemma BinDirNonEmpty(p: Probes)
    requires SelectNode(p).Found? && SelectNode(p).binDir.Some?
    ensures SelectNode(p).binDir.value != ""
  {
  }

  /** The worked example: among v18.0.0, v20.5.0 and v21.1.0, v21.1.0 is chosen. */
  lemma ExampleHighestChosen(home: string, existing: set<string>)
    requires NvmBinDir(home, "v21.1.0") + "/npx" in existing
    ensures SelectNode(Probes(home, None, Some(["v18.0.0", "v20.5.0", "v21.1.0"]), existing))
      == Found(NvmBinDir(home, "v21.1.0") + "/npx", Some(NvmBinDir(home, "v21.1.0")))
  {
    MajorV18();
    MajorV20();
    MajorV21();
    ThreeEntries(home, existing, "v18.0.0", "v20.5.0", "v21.1.0", 18, 20, 21);
  }

  /** The major of the worked example's oldest name, below the minimum. */
  lemma MajorV18()
    ensures ParseMajor("v18.0.0") == Some(18)
  {
    MajorOf("v18.0.0", "18", 18);
  }

  /** The major of the worked example's middle name, at the minimum. */
  lemma MajorV20()
    ensures ParseMajor("v20.5.0") == Some(20)
  {
    MajorOf("v20.5.0", "20", 20);
  }

  /** The major of the worked example's newest name. */
  lemma MajorV21()
    ensures ParseMajor("v21.1.0") == Some(21)
  {
    MajorOf("v21.1.0", "21", 21);
  }

  /** Three listed names whose majors are below 20, then rising from 20: the last one is chosen. */
  lemma ThreeEntries(home: string, existing: set<string>, a: string, b: string, c: string,
                     ma: nat, mb: nat, mc: nat)
    requires ParseMajor(a) == Some(ma) && ParseMajor(b) == Some(mb) && ParseMajor(c) == Some(mc)
    requires ma < MIN_MAJOR <= mb < mc
    requires NvmBinDir(home, c) + "/npx" in existing
    ensures SelectNode(Probes(home, None, Some([a, b, c]), existing))
      == Found(NvmBinDir(home, c) + "/npx", Some(NvmBinDir(home, c)))
  {
    CandidatesOfThree(a, b, c, ma, mb, mc);
    BestOfTwo((mb, b), (mc, c));
  }

  /** Of three listed names, the first below the minimum and the others at or above it: two candidates. */
  lemma CandidatesOfThree(a: string, b: string, c: string, ma: nat, mb: nat, mc: nat)
    requires ParseMajor(a) == Some(ma) && ParseMajor(b) == Some(mb) && ParseMajor(c) == Some(mc)
    requires ma < MIN_MAJOR <= mb && MIN_MAJOR <= mc
    ensures Candidates([a, b, c]) == [(mb, b), (mc, c)]
  {
    CandidatesThree(a, b, c);
    assert AsCandidate(a) == [] && AsCandidate(b) == [(mb, b)] && AsCandidate(c) == [(mc, c)];
  }

  /** A three-entry listing contributes each entry's candidate in turn. */
  lemma CandidatesThree(a: string, b: string, c: string)
    ensures Candidates([a, b, c]) == AsCandidate(a) + AsCandidate(b) + AsCandidate(c)
  {
    CandidatesTwo(a, b);
    CandidatesSnoc([a, b], c);
    assert [a, b] + [c] == [a, b, c];
  }

  /** A two-entry listing contributes each entry's candidate in turn. */
  lemma CandidatesTwo(a: string, b: string)
    ensures Candidates([a, b]) == AsCandidate(a) + AsCandidate(b)
  {
    CandidatesSnoc([], a);
    assert [] + [a] == [a];
    CandidatesSnoc([a], b);
    assert [a] + [b] == [a, b];
  }

  /** Of two candidates, the one with the higher major is the best. */
  lemma BestOfTwo(x: Candidate, y: Candidate)
    requires x.0 < y.0
    ensures Best([x, y]) == y
  {
    assert [x, y][1..] == [y];
  }

  /** `Candidates` one entry further into the listing. */
  lemma CandidatesStep(listing: seq<string>, i: nat)
    requires i < |listing|
    ensures Candidates(listing[..i + 1]) == Candidates(listing[..i]) + AsCandidate(listing[i])
  {
    assert listing[..i + 1][..i] == listing[..i];
  }

  lemma CandidatesSnoc(listing: seq<string>, entry: string)
    ensures Candidates(listing + [entry]) == Candidates(listing) + AsCandidate(entry)
  {
    assert (listing + [entry])[..|listing|] == listing;
  }

  /**
   * Within one major version the names decide, as strings: `v20.9.0` is preferred to
   * `v20.10.0`, since `'9'` follows `'1'`.
   */
  lemma ExampleTieBrokenByName()
    ensures CandidateLess((20, "v20.10.0"), (20, "v20.9.0"))
    ensures Best([(20, "v20.10.0"), (20, "v20.9.0")]) == (20, "v20.9.0")
  {
    var a, b := "v20.10.0", "v20.9.0";
    assert a[..4] == b[..4] && a[4] < b[4];
    StrLessAtFirstDifference(a, b, 4);
    assert [(20, a), (20, b)][1..] == [(20, b)];
  }

  /** The worked example: with only v18.0.0 installed nothing qualifies. */
  lemma ExampleOnlyOldNode(home: string, existing: set<string>)
    ensures SelectNode(Probes(home, None, Some(["v18.0.0"]), existing)) == NotFound
  {
    MajorOf("v18.0.0", "18", 18);
  }

  /** Reading a concrete `vMAJOR.MINOR.PATCH` name. */
  lemma MajorOf(entry: string, digits: string, major: nat)
    requires |entry| > 3 && entry[0] == 'v' && entry[1] != 'v' && entry[3] == '.'
    requires |digits| == 2 && entry[1..3] == digits && IsDigit(digits[0]) && IsDigit(digits[1])
    requires major == 10 * (digits[0] as int - '0' as int) + (digits[1] as int - '0' as int)
    ensures ParseMajor(entry) == Some(major)
  {
    assert LStripV(entry) == entry[1..];
    var rest := entry[1..];
    assert FirstPiece(rest[2..], '.') == [];
    assert FirstPiece(rest[1..], '.') == [rest[1]];
    assert FirstPiece(rest, '.') == digits;
    assert digits[..1] == [digits[0]];
    assert DecimalValue(digits[..1]) == digits[0] as int - '0' as int;
  }
}
