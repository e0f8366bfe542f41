/** The component's view state and its transitions: generation (with the
    strength recomputation that follows a password change) and the breach
    check (start, settle, and the composed handler). */
module Session {
  import opened Wrappers
  import opened Generator
  import opened Strength
  import opened Hex
  import opened Breach

  /** The state hooks of the component that the core touches. */
  datatype State = State(
    password: string,
    history: seq<string>,
    strength: nat,
    breachCount: Option<Reading>,
    isChecking: bool)

  /** The state before the first render. */
  const Initial: State := State("", [], 0, None, false)

  /** Which toast a transition raises; the texts themselves are presentation. */
  datatype Notice =
    | Quiet
    | NoClassSelected
    | EmptyCandidate
    | Compromised(reading: Reading)
    | NotFound
    | CheckFailed

  datatype Step = Step(next: State, notice: Notice)

  /** What holds between user actions: a bounded history headed by the current
      password, and a strength that belongs to the current password. */
  predicate Valid(s: State) {
    && |s.history| <= HistoryCap
    && s.strength <= 100
    && (s.history != [] ==> s.history[0] == s.password)
    && (s.password != "" ==> s.strength == Score(s.password))
  }

  lemma InitialValid()
    ensures Valid(Initial) && !Initial.isChecking && Initial.breachCount.None?
  {
  }

  /** The strength effect: a non-empty password gets its score; an empty one
      leaves the previous strength on display. */
  function RecomputeStrength(s: State): (r: State)
    ensures s.password != "" ==> r.strength == Score(s.password)
    ensures s.password == "" ==> r == s
    ensures r.(strength := s.strength) == s
  {
    if s.password != "" then s.(strength := Score(s.password)) else s
  }

  /** `generatePassword` followed by the strength effect. */
  function Generate(s: State, cfg: Config, words: seq<Word32>): (r: Step)
    requires |words| == cfg.length
    ensures NoClassEnabled(cfg) ==> r == Step(s, NoClassSelected)
    ensures !NoClassEnabled(cfg) ==> r.notice == Quiet
    ensures !NoClassEnabled(cfg) ==> r.next.password == GeneratePassword(cfg, words).value
    ensures !NoClassEnabled(cfg) ==> |r.next.password| == cfg.length
    ensures !NoClassEnabled(cfg) ==> forall i :: 0 <= i < |r.next.password| ==> Enabled(cfg, r.next.password[i])
    ensures !NoClassEnabled(cfg) ==> r.next.history == PushHistory(s.history, r.next.password)
    ensures !NoClassEnabled(cfg) && cfg.length > 0 ==> r.next.strength == Score(r.next.password)
    ensures r.next.breachCount == s.breachCount && r.next.isChecking == s.isChecking
  {
    match GeneratePassword(cfg, words)
    case None => Step(s, NoClassSelected)
    case Some(pw) =>
      var moved := s.(password := pw, history := PushHistory(s.history, pw));
      Step(RecomputeStrength(moved), Quiet)
  }

  /** Generation keeps the state valid, whether it succeeds or not. */
  lemma GeneratePreservesValid(s: State, cfg: Config, words: seq<Word32>)
    requires Valid(s)
    requires |words| == cfg.length
    ensures Valid(Generate(s, cfg, words).next)
  {
  }

  /** The generation run once on mount, with the default settings. */
  function Mount(words: seq<Word32>): (r: State)
    requires |words| == DefaultConfig.length
    ensures |r.password| == 16
    ensures r.history == [r.password]
  {
    Generate(Initial, DefaultConfig, words).next
  }

  /** After mounting, a sixteen-character password is on display, rated at
      least Medium. */
  lemma MountRatesAtLeastMedium(words: seq<Word32>)
    requires |words| == DefaultConfig.length
    ensures Valid(Mount(words))
    ensures Mount(words).strength >= 50
    ensures BandOf(Mount(words).strength) != Weak
  {
    InitialValid();
    GeneratePreservesValid(Initial, DefaultConfig, words);
  }

  /** The start of `checkPasswordBreach`: an empty candidate is refused with
      no change; otherwise the check is marked in flight and the old result cleared. */
  function BeginCheck(s: State, candidate: string): (r: Step)
    ensures candidate == "" ==> r == Step(s, EmptyCandidate)
    ensures candidate != "" ==> r.next == s.(isChecking := true, breachCount := None) && r.notice == Quiet
  {
    if candidate == "" then Step(s, EmptyCandidate)
    else Step(s.(isChecking := true, breachCount := None), Quiet)
  }

  /** The end of a check: the body and `finally` of the handler. */
  function SettleCheck(s: State, outcome: CheckOutcome): (r: Step)
    ensures !r.next.isChecking
    ensures outcome == Failed ==> r.next.breachCount == s.breachCount && r.notice == CheckFailed
    ensures outcome.Completed? ==> r.next.breachCount == Some(outcome.found.GetOr(Count(0)))
    ensures r.next.(isChecking := s.isChecking, breachCount := s.breachCount) == s
  {
    match outcome
    case Failed => Step(s.(isChecking := false), CheckFailed)
    case Completed(Some(reading)) => Step(s.(breachCount := Some(reading), isChecking := false), Compromised(reading))
    case Completed(None) => Step(s.(breachCount := Some(Count(0)), isChecking := false), NotFound)
  }

  /** `checkPasswordBreach` as one transition. `digest` is the SHA-1 digest of
      the candidate's UTF-8 bytes; `respond` is the network. */
  function CheckBreach(s: State, candidate: string, digest: seq<byte>, respond: string -> Option<string>): (r: Step)
    ensures candidate == "" ==> r == Step(s, EmptyCandidate)
    ensures candidate != "" ==> !r.next.isChecking
    ensures candidate != "" ==> (r.next.breachCount.None? <==> respond(RangeUrl(digest)).None?)
    ensures candidate != "" && respond(RangeUrl(digest)).Some? ==>
              r.next.breachCount
              == Some(ScanResponse(respond(RangeUrl(digest)).value, SplitRange(HashHex(digest)).1).GetOr(Count(0)))
    ensures r.next.password == s.password && r.next.history == s.history && r.next.strength == s.strength
  {
    var begun := BeginCheck(s, candidate);
    if candidate == "" then begun
    else SettleCheck(begun.next, RunProtocol(digest, respond))
  }

  /** An empty candidate never reaches the network: the result is the same
      whatever the network would answer. */
  lemma EmptyCandidateMakesNoRequest(s: State, digest: seq<byte>, respond1: string -> Option<string>, respond2: string -> Option<string>)
    ensures CheckBreach(s, "", digest, respond1) == CheckBreach(s, "", digest, respond2)
  {
  }

  /** A check keeps the state valid and leaves nothing in flight. */
  lemma CheckPreservesValid(s: State, candidate: string, digest: seq<byte>, respond: string -> Option<string>)
    requires Valid(s) && !s.isChecking
    ensures Valid(CheckBreach(s, candidate, digest, respond).next)
    ensures !CheckBreach(s, candidate, digest, respond).next.isChecking
  {
  }

  /** A body whose only record is `SUFFIX:42` for the digest's suffix reports 42. */
  lemma CheckReportsListedCount(s: State, candidate: string, digest: seq<byte>, respond: string -> Option<string>)
    requires candidate != "" && |digest| == DigestLength
    requires respond(RangeUrl(digest)) == Some(SplitRange(HashHex(digest)).1 + ":42")
    ensures CheckBreach(s, candidate, digest, respond).next.breachCount == Some(Count(42))
    ensures CheckBreach(s, candidate, digest, respond).notice == Compromised(Count(42))
  {
    var suffix := SplitRange(HashHex(digest)).1;
    HashHexIsUpperHex(digest);
    assert forall i :: 0 <= i < |suffix| ==> suffix[i] == HashHex(digest)[5 + i];
    assert ':' !in suffix && '\n' !in suffix;
    ScanSingleRecord(suffix);
  }

  /** What the result panel shows for `breachCount`. */
  datatype Verdict = Hidden | ShowsCompromised(n: nat) | ShowsSafe

  /** Hidden while null, compromised for a positive count, safe otherwise
      (a NaN count is not greater than zero). */
  function BreachVerdict(breachCount: Option<Reading>): (v: Verdict)
    ensures v == Hidden <==> breachCount.None?
    ensures v.ShowsCompromised? <==> breachCount.Some? && breachCount.value.Count? && breachCount.value.n > 0
    ensures v.ShowsCompromised? ==> v.n == breachCount.value.n
  {
    match breachCount
    case None => Hidden
    case Some(Count(n)) => if n > 0 then ShowsCompromised(n) else ShowsSafe
    case Some(NotANumber) => ShowsSafe
  }

  /** A matching record without a readable count raises the "compromised"
      toast, yet the panel then reports the password as not found. */
  lemma MatchWithoutCountShowsSafe(s: State, candidate: string, digest: seq<byte>, respond: string -> Option<string>)
    requires candidate != "" && |digest| == DigestLength
    requires respond(RangeUrl(digest)) == Some(SplitRange(HashHex(digest)).1)
    ensures CheckBreach(s, candidate, digest, respond).notice == Compromised(NotANumber)
    ensures BreachVerdict(CheckBreach(s, candidate, digest, respond).next.breachCount) == ShowsSafe
  {
    var suffix := SplitRange(HashHex(digest)).1;
    HashHexIsUpperHex(digest);
    assert forall i :: 0 <= i < |suffix| ==> suffix[i] == HashHex(digest)[5 + i];
    assert ':' !in suffix && '\n' !in suffix;
    SplitJoinSingle(suffix, '\n');
    assert suffix[..|suffix|] == suffix;
  }
}
