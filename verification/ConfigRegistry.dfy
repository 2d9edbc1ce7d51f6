/** The extraction-configuration registry as a protocol: writers under one lock, an atomic
    replace, readers without a lock, and crashes at any step. */
module ConfigRegistry {
  import opened Options

  /** A configuration is its canonical JSON text. */
  datatype Config = Config(json: string)

  /** A stored entry: a configuration of the supported schema, or something else. */
  datatype Entry = Valid(config: Config) | Invalid

  /** The parsed registry file.  A legacy file is a bare key-to-configuration mapping. */
  datatype Document =
    | Canonical(entries: map<string, Entry>)
    | Legacy(entries: map<string, Entry>)
    | Unusable  // malformed JSON, not a mapping, another schema, or configurations not a mapping

  type Configs = map<string, Config>

  /** `fp` gives a configuration its fingerprint; it may collide. */
  type Fingerprint = Config -> string

  ghost predicate EntriesOk(entries: map<string, Entry>, fp: Fingerprint) {
    forall key | key in entries :: entries[key].Valid? && fp(entries[key].config) == key
  }

  ghost predicate Usable(doc: Document, fp: Fingerprint) {
    !doc.Unusable? && EntriesOk(doc.entries, fp)
  }

  /** The configurations a usable document holds. */
  function Stored(doc: Document): Configs
  {
    if doc.Unusable? then map[]
    else map key | key in doc.entries && doc.entries[key].Valid? :: doc.entries[key].config
  }

  /** The source's validation loop. */
  method Validate(doc: Document, fp: Fingerprint) returns (configs: Option<Configs>)
    ensures configs.Some? <==> Usable(doc, fp)
    ensures configs.Some? ==> configs.value == Stored(doc) && configs.value.Keys == doc.entries.Keys
    ensures configs.Some? ==> forall key | key in configs.value :: doc.entries[key] == Valid(configs.value[key])
    ensures configs.Some? ==> forall key | key in configs.value :: fp(configs.value[key]) == key
  {
    if doc.Unusable? {
      return None;
    }
    var validated: Configs := map[];
    var todo := doc.entries.Keys;
    while todo != {}
      invariant todo <= doc.entries.Keys
      invariant validated.Keys == doc.entries.Keys - todo
      invariant forall key | key in validated ::
                  && doc.entries[key] == Valid(validated[key]) && fp(validated[key]) == key
    {
      var key :| key in todo;
      if doc.entries[key].Invalid? || fp(doc.entries[key].config) != key {
        return None;
      }
      validated := validated[key := doc.entries[key].config];
      todo := todo - {key};
    }
    assert validated == Stored(doc);
    configs := Some(validated);
  }

  // ----- The protocol state

  datatype Tmp = Partial | Complete(doc: Document)

  /** Where one call of `register` stands. */
  datatype Caller =
    | Idle
    | Waiting(config: Config)
    | Locked(config: Config)
    | Loaded(config: Config, configs: Configs)
    | Writing(config: Config, doc: Document)
    | Written(config: Config, doc: Document)
    | Replaced(config: Config)
    | Done(config: Config)
    | Failed
    | Dead

  predicate Holds(c: Caller) {
    c.Locked? || c.Loaded? || c.Writing? || c.Written? || c.Replaced?
  }

  /** The registry file, the temporary files by process id, the lock, and the callers.  Callers
      may share a process id, and so a temporary file. */
  datatype State = State(
    file: Option<Document>, tmp: map<nat, Tmp>, lock: Option<nat>, callers: seq<Caller>)

  function Contents(file: Option<Document>): Configs {
    if file.Some? then Stored(file.value) else map[]
  }

  /** The document written for a configuration, wrapped in the current schema. */
  function Output(configs: Configs, config: Config, fp: Fingerprint): Document {
    Canonical(map key | key in configs.Keys + {fp(config)} ::
      Valid(if key == fp(config) then config else configs[key]))
  }

  datatype Action =
    | Start(config: Config)
    | Acquire
    | Read
    | BeginWrite
    | EndWrite
    | Replace
    | Return
    | WriteError(tmpLeft: bool)
    | Crash

  /** The lock after caller i gives up whatever it holds. */
  function Release(s: State, i: nat): Option<nat> {
    if s.lock == Some(i) then None else s.lock
  }

  /** One step of caller i; `pid` maps callers to process ids. */
  ghost predicate Step(s: State, s': State, i: nat, a: Action, fp: Fingerprint, pid: nat -> nat) {
    && i < |s.callers|
    && var c := s.callers[i];
       match a
       case Start(config) =>
         && (c.Idle? || c.Done? || c.Failed?)
         && s' == s.(callers := s.callers[i := Waiting(config)])
       case Acquire =>
         && c.Waiting? && s.lock == None
         && s' == s.(lock := Some(i), callers := s.callers[i := Locked(c.config)])
       case Read =>
         && c.Locked?
         && s' == (if s.file.None? || Usable(s.file.value, fp)
                   then s.(callers := s.callers[i := Loaded(c.config, Contents(s.file))])
                   else s.(lock := Release(s, i), callers := s.callers[i := Failed]))
       case BeginWrite =>
         && c.Loaded?
         && s' == (if fp(c.config) in c.configs && c.configs[fp(c.config)] != c.config
                   then s.(lock := Release(s, i), callers := s.callers[i := Failed])  // fingerprint collision
                   else s.(tmp := s.tmp[pid(i) := Partial],
                           callers := s.callers[i := Writing(c.config, Output(c.configs, c.config, fp))]))
       case EndWrite =>
         && c.Writing?
         && s' == s.(tmp := s.tmp[pid(i) := Complete(c.doc)], callers := s.callers[i := Written(c.config, c.doc)])
       case Replace =>
         && c.Written? && pid(i) in s.tmp
         && s' == s.(file := if s.tmp[pid(i)].Complete? then Some(s.tmp[pid(i)].doc) else Some(Unusable),
                     tmp := s.tmp - {pid(i)}, callers := s.callers[i := Replaced(c.config)])
       case Return =>
         && c.Replaced?
         && s' == s.(lock := Release(s, i), callers := s.callers[i := Done(c.config)])
       case WriteError(tmpLeft) =>
         && (c.Writing? || c.Written?)
         && s' == s.(tmp := if tmpLeft then s.tmp else s.tmp - {pid(i)},
                     lock := Release(s, i), callers := s.callers[i := Failed])
       case Crash =>
         s' == s.(lock := Release(s, i), callers := s.callers[i := Dead])
  }

  // ----- The invariant

  ghost predicate FileOk(file: Option<Document>, fp: Fingerprint) {
    file.None? || Usable(file.value, fp)
  }

  /** What caller i's progress says about the files while it holds the lock. */
  ghost predicate CallerOk(s: State, i: nat, fp: Fingerprint, pid: nat -> nat)
    requires i < |s.callers|
  {
    var c := s.callers[i];
    && (Holds(c) <==> s.lock == Some(i))
    && (c.Loaded? ==> c.configs == Contents(s.file))
    && (c.Writing? || c.Written? ==>
          && c.doc == Output(Contents(s.file), c.config, fp)
          && (fp(c.config) in Contents(s.file) ==> Contents(s.file)[fp(c.config)] == c.config))
    && (c.Written? ==> pid(i) in s.tmp && s.tmp[pid(i)] == Complete(c.doc))
    && (c.Replaced? || c.Done? ==> Registered(s, c.config, fp))
  }

  ghost predicate Registered(s: State, config: Config, fp: Fingerprint) {
    fp(config) in Contents(s.file) && Contents(s.file)[fp(config)] == config
  }

  ghost predicate Inv(s: State, fp: Fingerprint, pid: nat -> nat) {
    && FileOk(s.file, fp)
    && forall i | 0 <= i < |s.callers| :: CallerOk(s, i, fp, pid)
  }

  /** Nothing stored is lost or changed. */
  ghost predicate Keeps(before: Configs, after: Configs) {
    forall key | key in before :: key in after && after[key] == before[key]
  }

  /** A write stores what was stored before, and the new configuration. */
  lemma OutputStores(configs: Configs, config: Config, fp: Fingerprint)
    requires forall key | key in configs :: fp(configs[key]) == key
    requires fp(config) in configs ==> configs[fp(config)] == config
    ensures Usable(Output(configs, config, fp), fp)
    ensures Stored(Output(configs, config, fp)) == configs[fp(config) := config]
    ensures Keeps(configs, Stored(Output(configs, config, fp)))
  {
  }

  lemma StoredFingerprints(file: Option<Document>, fp: Fingerprint)
    requires FileOk(file, fp)
    ensures forall key | key in Contents(file) :: fp(Contents(file)[key]) == key
  {
  }

  /** A caller other than the one that moved is untouched unless the file changes under it. */
  lemma OthersStay(s: State, s': State, i: nat, j: nat, a: Action, fp: Fingerprint, pid: nat -> nat)
    requires Inv(s, fp, pid) && Step(s, s', i, a, fp, pid) && !a.Replace?
    requires j < |s.callers| && j != i
    ensures CallerOk(s', j, fp, pid)
  {
    assert CallerOk(s, i, fp, pid) && CallerOk(s, j, fp, pid);
  }

  lemma MoverStays(s: State, s': State, i: nat, a: Action, fp: Fingerprint, pid: nat -> nat)
    requires Inv(s, fp, pid) && Step(s, s', i, a, fp, pid) && !a.Replace?
    ensures CallerOk(s', i, fp, pid)
  {
    assert CallerOk(s, i, fp, pid);
  }

  /** The replace publishes exactly the old entries and the new one. */
  lemma ReplacePublishes(s: State, s': State, i: nat, fp: Fingerprint, pid: nat -> nat)
    requires Inv(s, fp, pid) && Step(s, s', i, Replace, fp, pid)
    ensures FileOk(s'.file, fp) && s'.file.value.Canonical? && Registered(s', s.callers[i].config, fp)
    ensures Keeps(Contents(s.file), Contents(s'.file))
    ensures Contents(s'.file) == Contents(s.file)[fp(s.callers[i].config) := s.callers[i].config]
  {
    assert CallerOk(s, i, fp, pid);
    StoredFingerprints(s.file, fp);
    OutputStores(Contents(s.file), s.callers[i].config, fp);
  }

  lemma ReplaceKeepsCallers(s: State, s': State, i: nat, j: nat, fp: Fingerprint, pid: nat -> nat)
    requires Inv(s, fp, pid) && Step(s, s', i, Replace, fp, pid) && j < |s.callers|
    ensures CallerOk(s', j, fp, pid)
  {
    ReplacePublishes(s, s', i, fp, pid);
    assert CallerOk(s, i, fp, pid) && CallerOk(s, j, fp, pid);
  }

  /** Every step of every caller keeps the invariant and everything stored. */
  lemma StepKeeps(s: State, s': State, i: nat, a: Action, fp: Fingerprint, pid: nat -> nat)
    requires Inv(s, fp, pid) && Step(s, s', i, a, fp, pid)
    ensures Inv(s', fp, pid) && |s'.callers| == |s.callers|
    ensures Keeps(Contents(s.file), Contents(s'.file))
    ensures s.file.Some? ==> s'.file.Some?
  {
    if a.Replace? {
      ReplacePublishes(s, s', i, fp, pid);
    }
    forall j | 0 <= j < |s'.callers| ensures CallerOk(s', j, fp, pid) {
      if a.Replace? {
        ReplaceKeepsCallers(s, s', i, j, fp, pid);
      } else if j == i {
        MoverStays(s, s', i, a, fp, pid);
      } else {
        OthersStay(s, s', i, j, a, fp, pid);
      }
    }
  }

  // ----- Whole runs

  /** Before anyone registers: no lock, callers idle, stale temporary files allowed. */
  ghost predicate Fresh(s: State) {
    s.lock.None? && forall i | 0 <= i < |s.callers| :: s.callers[i].Idle?
  }

  ghost predicate Next(s: State, s': State, fp: Fingerprint, pid: nat -> nat) {
    exists i: nat, a :: Step(s, s', i, a, fp, pid)
  }

  /** A run: any interleaving of the callers' steps. */
  ghost predicate Run(run: seq<State>, fp: Fingerprint, pid: nat -> nat) {
    && run != []
    && if |run| == 1 then Fresh(run[0])
       else Run(run[..|run| - 1], fp, pid) && Next(run[|run| - 2], run[|run| - 1], fp, pid)
  }

  /** What every run started well has in its last state also holds all along it. */
  lemma {:induction false} PrefixRuns(run: seq<State>, fp: Fingerprint, pid: nat -> nat, k: nat)
    requires Run(run, fp, pid) && k < |run|
    ensures Run(run[..k + 1], fp, pid)
    ensures k > 0 ==> Next(run[k - 1], run[k], fp, pid)
    decreases |run|
  {
    if k + 1 < |run| {
      PrefixRuns(run[..|run| - 1], fp, pid, k);
      assert run[..|run| - 1][..k + 1] == run[..k + 1];
    } else {
      assert run[..k + 1] == run;
    }
  }

  lemma {:induction false} RunInvariant(run: seq<State>, fp: Fingerprint, pid: nat -> nat, k: nat)
    requires Run(run, fp, pid) && FileOk(run[0].file, fp) && k < |run|
    ensures Inv(run[k], fp, pid)
  {
    PrefixRuns(run, fp, pid, 0);
    if k > 0 {
      RunInvariant(run, fp, pid, k - 1);
      PrefixRuns(run, fp, pid, k);
      var i: nat, a :| Step(run[k - 1], run[k], i, a, fp, pid);
      StepKeeps(run[k - 1], run[k], i, a, fp, pid);
    }
  }

  lemma {:induction false} RunKeeps(run: seq<State>, fp: Fingerprint, pid: nat -> nat, j: nat, k: nat)
    requires Run(run, fp, pid) && FileOk(run[0].file, fp) && j <= k < |run|
    ensures Keeps(Contents(run[j].file), Contents(run[k].file))
    ensures run[j].file.Some? ==> run[k].file.Some?
    decreases k
  {
    if j < k {
      RunKeeps(run, fp, pid, j, k - 1);
      RunInvariant(run, fp, pid, k - 1);
      PrefixRuns(run, fp, pid, k);
      var i: nat, a :| Step(run[k - 1], run[k], i, a, fp, pid);
      StepKeeps(run[k - 1], run[k], i, a, fp, pid);
    }
  }

  /** What a lock-free reader gets from one state. */
  function ReadFile(s: State): Option<Configs> {
    if s.file.Some? then Some(Stored(s.file.value)) else None
  }

  /** Whatever writers, crashes and failures do, a call that returned success is visible to
      every later reader, under its fingerprint, with nothing else lost. */
  lemma RegisteredIsNeverLost(run: seq<State>, fp: Fingerprint, pid: nat -> nat, j: nat, k: nat, i: nat)
    requires Run(run, fp, pid) && FileOk(run[0].file, fp) && j <= k < |run|
    requires i < |run[j].callers| && run[j].callers[i].Done?
    ensures FileOk(run[k].file, fp) && ReadFile(run[k]).Some?
    ensures var c := run[j].callers[i].config;
            fp(c) in ReadFile(run[k]).value && ReadFile(run[k]).value[fp(c)] == c
    ensures forall key | key in ReadFile(run[k]).value :: fp(ReadFile(run[k]).value[key]) == key
    ensures Keeps(Contents(run[0].file), ReadFile(run[k]).value)
  {
    RunInvariant(run, fp, pid, j);
    RunInvariant(run, fp, pid, k);
    RunKeeps(run, fp, pid, j, k);
    RunKeeps(run, fp, pid, 0, k);
    StoredFingerprints(run[k].file, fp);
    assert CallerOk(run[j], i, fp, pid);
  }

  /** At most one caller is between acquiring the lock and returning. */
  lemma OneHolder(run: seq<State>, fp: Fingerprint, pid: nat -> nat, k: nat, i: nat, j: nat)
    requires Run(run, fp, pid) && FileOk(run[0].file, fp) && k < |run|
    requires i < |run[k].callers| && j < |run[k].callers|
    requires Holds(run[k].callers[i]) && Holds(run[k].callers[j])
    ensures i == j
  {
    RunInvariant(run, fp, pid, k);
    assert CallerOk(run[k], i, fp, pid) && CallerOk(run[k], j, fp, pid);
  }

  // ----- What an uninterrupted call comes to

  /** Caller i takes these actions in this order, and nobody else moves. */
  ghost predicate Path(states: seq<State>, i: nat, actions: seq<Action>, fp: Fingerprint, pid: nat -> nat) {
    && |states| == |actions| + 1
    && forall k | 0 <= k < |actions| :: Step(states[k], states[k + 1], i, actions[k], fp, pid)
  }

  /** The configurations of a file that is absent or can be read, whatever its form. */
  ghost predicate Readable(file: Option<Document>, configs: Configs, fp: Fingerprint) {
    if file.None? then configs == map[]
    else
      && !file.value.Unusable? && configs.Keys == file.value.entries.Keys
      && forall key | key in configs :: file.value.entries[key] == Valid(configs[key]) && fp(configs[key]) == key
  }

  lemma ReadableIffOk(file: Option<Document>, configs: Configs, fp: Fingerprint)
    ensures Readable(file, configs, fp) <==> FileOk(file, fp) && configs == Contents(file)
  {
    if FileOk(file, fp) && file.Some? && Readable(file, configs, fp) {
      assert configs == Contents(file);
    }
  }

  /** A call that finds the lock free and a readable file without another configuration under its
      fingerprint goes through: the file becomes the canonical one with its entry added, the lock
      is free again, and no other caller has moved. */
  lemma CallGoesThrough(s: State, i: nat, config: Config, configs: Configs, fp: Fingerprint, pid: nat -> nat)
    returns (states: seq<State>)
    requires i < |s.callers| && s.callers[i] == Waiting(config) && s.lock == None
    requires Readable(s.file, configs, fp) && (fp(config) in configs ==> configs[fp(config)] == config)
    ensures Path(states, i, [Acquire, Read, BeginWrite, EndWrite, Replace, Return], fp, pid) && states[0] == s
    ensures states[6].callers == s.callers[i := Done(config)] && states[6].lock == None
    ensures states[6].file.Some? && states[6].file.value.Canonical?
    ensures Readable(states[6].file, configs[fp(config) := config], fp)
  {
    ReadableIffOk(s.file, configs, fp);
    OutputStores(configs, config, fp);
    hide Readable, Usable, FileOk, Contents;
    var doc := Output(configs, config, fp);
    var s1 := s.(lock := Some(i), callers := s.callers[i := Locked(config)]);
    var s2 := s1.(callers := s1.callers[i := Loaded(config, configs)]);
    var s3 := s2.(tmp := s2.tmp[pid(i) := Partial], callers := s2.callers[i := Writing(config, doc)]);
    var s4 := s3.(tmp := s3.tmp[pid(i) := Complete(doc)], callers := s3.callers[i := Written(config, doc)]);
    var s5 := s4.(file := Some(doc), tmp := s4.tmp - {pid(i)}, callers := s4.callers[i := Replaced(config)]);
    var s6 := s5.(lock := None, callers := s5.callers[i := Done(config)]);
    states := [s, s1, s2, s3, s4, s5, s6];
    ReadableIffOk(s6.file, configs[fp(config) := config], fp);
  }

  /** The other calls fail with nothing written: at the read when the file cannot be read, and
      before the write when another configuration has the fingerprint. */
  lemma CallIsRefused(s: State, i: nat, config: Config, fp: Fingerprint, pid: nat -> nat)
    returns (states: seq<State>, actions: seq<Action>)
    requires i < |s.callers| && s.callers[i] == Waiting(config) && s.lock == None
    requires forall configs | Readable(s.file, configs, fp) :: fp(config) in configs && configs[fp(config)] != config
    ensures actions == if exists configs :: Readable(s.file, configs, fp) then [Acquire, Read, BeginWrite] else [Acquire, Read]
    ensures Path(states, i, actions, fp, pid) && states[0] == s
    ensures states[|actions|] == s.(callers := s.callers[i := Failed])
  {
    var s1 := s.(lock := Some(i), callers := s.callers[i := Locked(config)]);
    var last := s.(callers := s.callers[i := Failed]);
    if FileOk(s.file, fp) {
      ReadableIffOk(s.file, Contents(s.file), fp);
      var s2 := s1.(callers := s1.callers[i := Loaded(config, Contents(s.file))]);
      states, actions := [s, s1, s2, last], [Acquire, Read, BeginWrite];
    } else {
      forall configs ensures !Readable(s.file, configs, fp) {
        ReadableIffOk(s.file, configs, fp);
      }
      states, actions := [s, s1, last], [Acquire, Read];
    }
  }

  // ----- A file that was unusable to begin with

  ghost predicate Untouched(s: State, file: Document) {
    && s.file == Some(file)
    && forall i | 0 <= i < |s.callers| ::
         var c := s.callers[i];
         !c.Loaded? && !c.Writing? && !c.Written? && !c.Replaced? && !c.Done?
  }

  /** An unusable file is reported by every call and never overwritten. */
  lemma {:induction false} UnusableIsNeverOverwritten(run: seq<State>, fp: Fingerprint, pid: nat -> nat,
                                                       file: Document, k: nat)
    requires Run(run, fp, pid) && run[0].file == Some(file) && !Usable(file, fp) && k < |run|
    ensures Untouched(run[k], file)
  {
    PrefixRuns(run, fp, pid, 0);
    PrefixRuns(run, fp, pid, k);
    hide Run;
    if k == 0 {
      StartsFresh(run, fp, pid);
    } else {
      UnusableIsNeverOverwritten(run, fp, pid, file, k - 1);
      var i: nat, a :| Step(run[k - 1], run[k], i, a, fp, pid);
      UntouchedStep(run[k - 1], run[k], i, a, fp, pid, file);
    }
  }

  lemma {:induction false} StartsFresh(run: seq<State>, fp: Fingerprint, pid: nat -> nat)
    requires Run(run, fp, pid)
    ensures Fresh(run[0])
  {
    if |run| > 1 {
      StartsFresh(run[..|run| - 1], fp, pid);
    }
  }

  lemma UntouchedStep(s: State, s': State, i: nat, a: Action, fp: Fingerprint, pid: nat -> nat, file: Document)
    requires Untouched(s, file) && Step(s, s', i, a, fp, pid) && !Usable(file, fp)
    ensures Untouched(s', file)
  {
    var c := s.callers[i];
    assert !c.Loaded? && !c.Writing? && !c.Written? && !c.Replaced? && !c.Done?;
  }
}
