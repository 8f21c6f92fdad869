/** The per-install signing key, minted by whichever process creates the key
    file first and read back by all of them. */
module SessionKey {

  import opened Common

  // ---- Keys as text ----

  predicate HexDigit(c: char) { '0' <= c <= '9' || 'a' <= c <= 'f' }

  /** What `secrets.token_hex(32)` returns. */
  predicate Token(s: string) {
    |s| == 64 && forall i :: 0 <= i < |s| ==> HexDigit(s[i])
  }

  lemma TokenSurvivesStrip(s: string)
    requires Token(s)
    ensures Strip(s) == s
  {
    assert !IsSpace(s[0]) && !IsSpace(s[|s| - 1]);
  }

  // ---- The race ----

  /** Why a process ended with the key it has. */
  datatype Source = ReadBack | FoundEmpty | CouldNotUseFile

  datatype Process =
    | Booting
    | Creating                              // holds the O_EXCL descriptor, nothing written yet
    | Reading
    | Keyed(key: string, source: Source)
    | Dead

  /** `file` is None while the path does not exist.  `creations` counts the
      successful O_CREAT|O_EXCL opens, `mints` the keys written. */
  datatype State = State(file: Option<string>, processes: map<nat, Process>, creations: nat, mints: nat)

  datatype Step =
    | Open(p: nat)
    | Write(p: nat, token: string)
    | Read(p: nat, token: string)
    | Fail(p: nat, token: string)            // an OSError anywhere in the attempt
    | Crash(p: nat)
    | Boot(p: nat)                           // a new process, or a restart

  predicate At(s: State, p: nat, at: Process) {
    p in s.processes && s.processes[p] == at
  }

  predicate Enabled(s: State, step: Step) {
    match step
    case Open(p) => At(s, p, Booting)
    case Write(p, token) => At(s, p, Creating) && Token(token)
    case Read(p, token) => At(s, p, Reading) && s.file.Some? && Token(token)
    case Fail(p, token) => (At(s, p, Booting) || At(s, p, Creating) || At(s, p, Reading)) && Token(token)
    case Crash(p) => p in s.processes && s.processes[p] != Dead
    case Boot(p) => p !in s.processes || At(s, p, Dead)
  }

  function Become(s: State, p: nat, at: Process): State {
    s.(processes := s.processes[p := at])
  }

  function Next(s: State, step: Step): State
    requires Enabled(s, step)
  {
    match step
    case Open(p) =>
      if s.file.None? then Become(s, p, Creating).(file := Some(""), creations := s.creations + 1)
      else Become(s, p, Reading)
    case Write(p, token) =>
      Become(s, p, Reading).(file := Some(token), mints := s.mints + 1)
    case Read(p, token) =>
      var existing := Strip(s.file.value);
      if existing != "" then Become(s, p, Keyed(existing, ReadBack)) else Become(s, p, Keyed(token, FoundEmpty))
    case Fail(p, token) => Become(s, p, Keyed(token, CouldNotUseFile))
    case Crash(p) => Become(s, p, Dead)
    case Boot(p) => Become(s, p, Booting)
  }

  predicate Runs(s: State, steps: seq<Step>)
    decreases |steps|
  {
    steps == [] || (Enabled(s, steps[0]) && Runs(Next(s, steps[0]), steps[1..]))
  }

  function After(s: State, steps: seq<Step>): State
    requires Runs(s, steps)
    decreases |steps|
  {
    if steps == [] then s else After(Next(s, steps[0]), steps[1..])
  }

  /** A cold start: nobody has run; the file may already be there. */
  predicate Init(s: State) {
    s.processes == map[] && s.creations == 0 && s.mints == 0
  }

  // ---- What every run keeps ----

  ghost predicate OnlyCreator(s: State, p: nat) {
    forall q :: At(s, q, Creating) ==> q == p
  }

  ghost predicate NoCreator(s: State) {
    forall q :: !At(s, q, Creating)
  }

  /** The file as it was found, or as the one creation left it. */
  ghost predicate Inv(s: State, found: Option<string>) {
    && s.mints <= s.creations <= (if found.None? then 1 else 0)
    && (s.creations == 0 ==> s.file == found && NoCreator(s))
    && (s.creations == 1 && s.mints == 0 ==> s.file == Some("") && exists p :: OnlyCreator(s, p))
    && (s.mints == 1 ==> s.file.Some? && Token(s.file.value) && NoCreator(s))
    && (forall p :: At(s, p, Reading) ==> s.file.Some?)
    && (forall p, key :: At(s, p, Keyed(key, ReadBack)) ==> s.file.Some? && key == Strip(s.file.value) && key != "")
    && (forall p, key, source :: At(s, p, Keyed(key, source)) && source != ReadBack ==> Token(key))
  }

  lemma OthersStay(s: State, step: Step)
    requires Enabled(s, step)
    ensures forall q, at :: q != step.p ==> At(Next(s, step), q, at) == At(s, q, at)
  {
  }

  lemma StepKeeps(s: State, found: Option<string>, step: Step)
    requires Inv(s, found) && Enabled(s, step)
    ensures Inv(Next(s, step), found)
  {
    var t := Next(s, step);
    OthersStay(s, step);
    match step
    case Open(p) =>
      if s.file.None? { assert OnlyCreator(t, p); }
      else if s.creations == 1 && s.mints == 0 {
        var q :| OnlyCreator(s, q);
        assert OnlyCreator(t, q);
      }
    case Write(p, token) =>
    case _ =>
      if s.creations == 1 && s.mints == 0 {
        var p :| OnlyCreator(s, p);
        assert OnlyCreator(t, p);
      }
  }

  /** At most one key is ever written, and none at all over a file that was
      found there: the invariant bounds `mints`. */
  lemma {:induction false} RunKeeps(s: State, found: Option<string>, steps: seq<Step>)
    requires Inv(s, found) && Runs(s, steps)
    ensures Inv(After(s, steps), found) && After(s, steps).mints <= if found.None? then 1 else 0
    decreases |steps|
  {
    if steps != [] {
      StepKeeps(s, found, steps[0]);
      RunKeeps(Next(s, steps[0]), found, steps[1..]);
    }
  }

  lemma {:induction false} ContentNeverChanges(s: State, found: Option<string>, steps: seq<Step>)
    requires Inv(s, found) && Runs(s, steps) && s.file.Some? && s.file.value != ""
    ensures After(s, steps).file == s.file
    decreases |steps|
  {
    if steps != [] {
      StepKeeps(s, found, steps[0]);
      ContentNeverChanges(Next(s, steps[0]), found, steps[1..]);
    }
  }

  /** Once the winner has written, whatever happens next, a process that gets to
      read the file ends with the winner's key. */
  lemma ReadAfterWriteAgrees(s: State, found: Option<string>, steps: seq<Step>, p: nat, token: string)
    requires Inv(s, found) && s.mints == 1 && Runs(s, steps)
    requires Enabled(After(s, steps), Read(p, token))
    ensures Next(After(s, steps), Read(p, token)).processes[p] == Keyed(s.file.value, ReadBack)
  {
    ContentNeverChanges(s, found, steps);
    TokenSurvivesStrip(s.file.value);
  }

  /** All processes that took their key from the file hold the same one, and so
      does the file. */
  lemma ReadersAgree(s: State, found: Option<string>, p: nat, q: nat, a: string, b: string)
    requires Inv(s, found) && At(s, p, Keyed(a, ReadBack)) && At(s, q, Keyed(b, ReadBack))
    ensures a == b
  {
  }

  /** The two ways to come out with a key of one's own, as the step that takes
      it: an OSError, or a file that is blank at the read.  The file is blank
      only between the creation and the write, after a creator that died there,
      or because it was found blank. */
  lemma OwnKeyOnlyInTheWindow(s: State, found: Option<string>, step: Step, p: nat, key: string, source: Source)
    requires Inv(s, found) && Enabled(s, step) && source != ReadBack
    requires At(Next(s, step), p, Keyed(key, source)) && !At(s, p, Keyed(key, source))
    ensures step == Fail(p, key) || step == Read(p, key)
    ensures step.Read? ==> s.mints == 0
    ensures step.Read? && s.creations == 1 ==> s.file == Some("")
    ensures step.Read? && s.creations == 0 ==> found.Some? && Strip(found.value) == ""
  {
    OthersStay(s, step);
    assert step.p == p;
    if step.Read? && s.mints == 1 { TokenSurvivesStrip(s.file.value); }
  }

  // ---- What a write does to the rest of the run ----

  lemma {:induction false} RunsSplit(s: State, steps: seq<Step>, n: nat)
    requires n <= |steps| && Runs(s, steps)
    ensures Runs(s, steps[..n]) && Runs(After(s, steps[..n]), steps[n..])
    ensures After(After(s, steps[..n]), steps[n..]) == After(s, steps)
    decreases |steps|
  {
    if n == 0 {
      assert steps[0..] == steps;
    } else {
      RunsSplit(Next(s, steps[0]), steps[1..], n - 1);
      assert steps[..n][1..] == steps[1..][..n - 1] && steps[n..] == steps[1..][n - 1..];
    }
  }

  lemma InitHolds(s: State)
    requires Init(s)
    ensures Inv(s, s.file)
  {
  }

  /** From a cold start without a key file: once a process has written its token,
      the file holds that token for the rest of the run. */
  lemma WriteSticks(s: State, steps: seq<Step>, i: nat, n: nat)
    requires Init(s) && s.file == None && Runs(s, steps) && i < n <= |steps| && steps[i].Write?
    ensures Runs(s, steps[..n]) && After(s, steps[..n]).file == Some(steps[i].token)
  {
    RunsSplit(s, steps, n);
    var run := steps[..n];
    RunsSplit(s, run, i);
    InitHolds(s);
    RunKeeps(s, None, run[..i]);
    var before := After(s, run[..i]);
    assert run[i..][0] == steps[i];
    StepKeeps(before, None, steps[i]);
    assert steps[i].token != "";
    ContentNeverChanges(Next(before, steps[i]), None, run[i..][1..]);
  }

  /** And every process that reads after that comes out with it. */
  lemma ReadsAfterTheWriteAgree(s: State, steps: seq<Step>, i: nat, n: nat)
    requires Init(s) && s.file == None && Runs(s, steps) && i < n < |steps| && steps[i].Write? && steps[n].Read?
    ensures Runs(s, steps[..n + 1])
    ensures At(After(s, steps[..n + 1]), steps[n].p, Keyed(steps[i].token, ReadBack))
  {
    WriteSticks(s, steps, i, n);
    RunsSplit(s, steps, i);
    assert steps[i..][0] == steps[i];
    TokenSurvivesStrip(steps[i].token);
    RunsSplit(s, steps, n + 1);
    var run := steps[..n + 1];
    RunsSplit(s, run, n);
    assert run[..n] == steps[..n] && run[n..] == [steps[n]];
    assert [steps[n]][1..] == [];
  }

  /** A first boot that dies between creating and writing leaves an empty file, over
      which every later boot ends with a key of its own. */
  lemma BootDiesInTheWindow(p: nat, q: nat, own: string)
    requires p != q && Token(own)
    ensures var s, death := State(None, map[], 0, 0), [Boot(p), Open(p), Crash(p)];
      && Runs(s, death) && After(s, death) == State(Some(""), map[p := Dead], 1, 0)
      && var boot := [Boot(q), Open(q), Read(q, own)];
         Runs(After(s, death), boot) && At(After(After(s, death), boot), q, Keyed(own, FoundEmpty))
  {
    var s, death := State(None, map[], 0, 0), [Boot(p), Open(p), Crash(p)];
    var s1 := Next(s, death[0]);
    var s2 := Next(s1, death[1]);
    assert death[1..] == [Open(p), Crash(p)] && death[1..][1..] == [Crash(p)];
    Last(s2, death[2]);
    var dead := Next(s2, death[2]);
    assert dead.processes == map[p := Dead];
    assert After(s1, death[1..]) == dead;
    var boot := [Boot(q), Open(q), Read(q, own)];
    var t1 := Next(dead, boot[0]);
    var t2 := Next(t1, boot[1]);
    assert boot[1..] == [Open(q), Read(q, own)] && boot[1..][1..] == [Read(q, own)];
    Last(t2, boot[2]);
    assert After(t1, boot[1..]) == Next(t2, boot[2]);
  }

  /** A first boot nobody disturbs mints the key and uses it. */
  lemma FirstBootKeepsItsKey(p: nat, token: string, own: string)
    requires Token(token) && Token(own)
    ensures var s, steps := State(None, map[], 0, 0), [Boot(p), Open(p), Write(p, token), Read(p, own)];
      Runs(s, steps) && After(s, steps).file == Some(token) && At(After(s, steps), p, Keyed(token, ReadBack))
  {
    var s := State(None, map[], 0, 0);
    var steps := [Boot(p), Open(p), Write(p, token), Read(p, own)];
    TokenSurvivesStrip(token);
    var s1 := Next(s, steps[0]);
    var s2 := Next(s1, steps[1]);
    var s3 := Next(s2, steps[2]);
    var s4 := Next(s3, steps[3]);
    assert steps[1..] == [Open(p), Write(p, token), Read(p, own)];
    assert steps[1..][1..] == [Write(p, token), Read(p, own)] && steps[1..][1..][1..] == [Read(p, own)];
    Last(s3, steps[3]);
    assert After(s2, [Write(p, token), Read(p, own)]) == s4;
    assert After(s1, steps[1..]) == s4;
  }

  lemma Last(s: State, step: Step)
    requires Enabled(s, step)
    ensures Runs(s, [step]) && After(s, [step]) == Next(s, step)
  {
    assert [step][1..] == [];
  }

  /** Any boot after that finds the key and writes nothing. */
  lemma LaterBootFindsTheKey(s: State, p: nat, token: string, own: string)
    requires s.file == Some(token) && Token(token) && Token(own) && (p !in s.processes || At(s, p, Dead))
    ensures var steps := [Boot(p), Open(p), Read(p, own)];
      Runs(s, steps) && After(s, steps).file == s.file && At(After(s, steps), p, Keyed(token, ReadBack))
  {
    var steps := [Boot(p), Open(p), Read(p, own)];
    TokenSurvivesStrip(token);
    var s1 := Next(s, steps[0]);
    var s2 := Next(s1, steps[1]);
    assert steps[1..] == [Open(p), Read(p, own)] && steps[1..][1..] == [Read(p, own)];
    Last(s2, steps[2]);
    assert After(s1, steps[1..]) == Next(s2, steps[2]);
  }

  // ---- Exactly when all processes share the file's key ----

  /** Every process that has a key has the file's. */
  ghost predicate Agreed(s: State) {
    forall p, key, source :: At(s, p, Keyed(key, source)) ==> s.file.Some? && key == Strip(s.file.value)
  }

  /** At every moment of the run. */
  ghost predicate AlwaysAgreed(s: State, steps: seq<Step>)
    requires Runs(s, steps)
    decreases |steps|
  {
    Agreed(s) && (steps == [] || AlwaysAgreed(Next(s, steps[0]), steps[1..]))
  }

  /** An OSError, or a read that meets a blank file. */
  predicate Misses(s: State, step: Step)
    requires Enabled(s, step)
  {
    step.Fail? || (step.Read? && Strip(s.file.value) == "")
  }

  predicate NeverMisses(s: State, steps: seq<Step>)
    requires Runs(s, steps)
    decreases |steps|
  {
    steps == [] || (!Misses(s, steps[0]) && NeverMisses(Next(s, steps[0]), steps[1..]))
  }

  /** No process draws, for itself, the very token the file holds. */
  predicate DrawsAfresh(s: State, steps: seq<Step>)
    requires Runs(s, steps)
    decreases |steps|
  {
    steps == [] ||
    ((steps[0].Fail? && s.file.Some? ==> steps[0].token != Strip(s.file.value)) && DrawsAfresh(Next(s, steps[0]), steps[1..]))
  }

  lemma MissBreaksAgreement(s: State, found: Option<string>, step: Step)
    requires Inv(s, found) && Agreed(s) && Enabled(s, step)
    requires step.Fail? && s.file.Some? ==> step.token != Strip(s.file.value)
    ensures Agreed(Next(s, step)) <==> !Misses(s, step)
  {
    var t := Next(s, step);
    OthersStay(s, step);
    if Misses(s, step) {
      TokenSurvivesStrip(step.token);
      assert At(t, step.p, t.processes[step.p]) && t.processes[step.p].Keyed? && t.processes[step.p].key == step.token;
    }
  }

  /** Over any run from a moment of agreement, a cold start among them, the
      processes keep sharing the file's key exactly when no attempt met an OSError
      and no read a blank file. */
  lemma {:induction false} AlwaysAgreedIffNeverMisses(s: State, found: Option<string>, steps: seq<Step>)
    requires Inv(s, found) && Agreed(s) && Runs(s, steps) && DrawsAfresh(s, steps)
    ensures AlwaysAgreed(s, steps) <==> NeverMisses(s, steps)
    decreases |steps|
  {
    if steps != [] {
      MissBreaksAgreement(s, found, steps[0]);
      if !Misses(s, steps[0]) {
        StepKeeps(s, found, steps[0]);
        AlwaysAgreedIffNeverMisses(Next(s, steps[0]), found, steps[1..]);
      }
    }
  }

  /** A creator that dies between creating and writing leaves the file empty for
      good: no later process, restarted or new, ever writes it or shares a key. */
  lemma {:induction false} DeadCreatorWedges(s: State, found: Option<string>, steps: seq<Step>)
    requires Inv(s, found) && s.creations == 1 && s.mints == 0 && NoCreator(s) && Runs(s, steps)
    ensures After(s, steps).mints == 0 && After(s, steps).file == Some("")
    ensures forall p, key :: !At(After(s, steps), p, Keyed(key, ReadBack))
    decreases |steps|
  {
    if steps != [] {
      StepKeeps(s, found, steps[0]);
      OthersStay(s, steps[0]);
      DeadCreatorWedges(Next(s, steps[0]), found, steps[1..]);
    }
  }

  // ---- Which key the settings end up with ----

  const PLACEHOLDERS: set<string> := {
    "change-me-in-production",
    "dev-secret-key-change-in-production",
    "change-me-in-production-use-a-random-64-char-string"
  }

  /** A key that is neither blank nor published in the repository. */
  predicate Unpublished(key: string) {
    Strip(key) != "" && Strip(key) !in PLACEHOLDERS
  }

  class Settings {
    var secretKey: string
    const appEnv: string

    constructor (secretKey: string, appEnv: string)
      ensures this.secretKey == secretKey && this.appEnv == appEnv
    {
      this.secretKey, this.appEnv := secretKey, appEnv;
    }

    /** `persisted` is what reading the key file comes back with. */
    method ResolveSessionSecret(persisted: string)
      modifies this
      ensures Unpublished(old(secretKey)) ==> secretKey == old(secretKey)
      ensures !Unpublished(old(secretKey)) && appEnv != "development" ==> secretKey == persisted
      ensures !Unpublished(old(secretKey)) && appEnv == "development" ==>
        secretKey == if Strip(old(secretKey)) == "" then "change-me-in-production" else Strip(old(secretKey))
      ensures Unpublished(secretKey) <==> Unpublished(old(secretKey)) || (appEnv != "development" && Unpublished(persisted))
    {
      var configured := Strip(secretKey);
      if configured != "" && configured !in PLACEHOLDERS { return; }
      if appEnv == "development" {
        StripIsTrimmed(secretKey);
        PlaceholderIsTrimmed();
        secretKey := if configured == "" then "change-me-in-production" else configured;
        return;
      }
      secretKey := persisted;
    }
  }

  lemma PlaceholderIsTrimmed()
    ensures Strip("change-me-in-production") == "change-me-in-production"
  {
    var s := "change-me-in-production";
    LeftIsTrimmed(s);
    RightKeepsLeft(s);
  }

  /** The keys the repository has shipped count as no key at all, blanks around
      them or not. */
  lemma ShippedKeysAreRefused(key: string)
    requires Strip(key) in {"", "change-me-in-production", "dev-secret-key-change-in-production",
                            "change-me-in-production-use-a-random-64-char-string"}
    ensures !Unpublished(key)
  {
  }

  /** On an install that starts without a key file, whatever the race does,
      every process that comes out of it signs with an unpublished key. */
  lemma ColdStartKeysAreUnpublished(s: State, steps: seq<Step>, p: nat, key: string, source: Source)
    requires Init(s) && s.file == None && Runs(s, steps)
    requires At(After(s, steps), p, Keyed(key, source))
    ensures Token(key) && Unpublished(key)
  {
    RunKeeps(s, None, steps);
    var end := After(s, steps);
    if source == ReadBack {
      assert end.mints == 1;
      TokenSurvivesStrip(end.file.value);
    }
    TokenSurvivesStrip(key);
    assert forall placeholder :: placeholder in PLACEHOLDERS ==> |placeholder| != 64;
  }
}
