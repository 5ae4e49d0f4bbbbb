/** Installing into the SillyTavern folder: an ordered sequence of file writes, any of which may fail or be the last
    thing that happens (browser-folder-provisioning.js, provisionBrowserFolder). */
module FolderInstall {
  import opened MessageSpans
  import opened PromptEntries
  import ConfigRewrite

  /** The files an installation touches. A backup is addressed by the hash of what it holds; the hash is injective. */
  datatype Path =
    | Config
    | Stub
    | Binding
    | StubStaged(installId: string)
    | BindingStaged(installId: string)
    | RuntimeConfig
    | Backup(of: string)
    | Complete
    | FailureReceipt(installId: string)
    | OtherFile(name: string)

  type Files = map<Path, string>

  /** How far a failing write gets: not even to create the file, to create it, or all the way. */
  datatype Effect = Nothing | Touched | Written

  /** What becomes of one awaited step. */
  datatype Fate = Fine | Fails(effect: Effect) | Crashes(effect: Effect)

  /** One installation: whether the folder passes validation, and what it writes. */
  datatype Attempt = Attempt(
    installId: string, valid: bool, bootstrap: string, binding: string, runtimeConfig: string, receipt: string, failure: string)

  datatype Outcome = Done | Failed | Crashed

  /** Files are replaced atomically: until a write is complete, an existing file keeps its content and a new one is empty. */
  ghost function AfterWrite(files: Files, path: Path, content: string, effect: Effect): Files {
    match effect
    case Nothing => files
    case Touched => if path in files then files else files[path := ""]
    case Written => files[path := content]
  }

  function EffectOf(f: Fate): Effect {
    if f.Fine? then Written else f.effect
  }

  // ---- What one attempt may do ----

  /** Files of this attempt that may change while config.yaml is still as it was. */
  ghost predicate Replaceable(path: Path, content: string, a: Attempt) {
    match path
    case Stub => content == a.bootstrap
    case Binding => content == a.binding
    case RuntimeConfig => content == a.runtimeConfig
    case StubStaged(id) => id == a.installId && content == a.bootstrap
    case BindingStaged(id) => id == a.installId && content == a.binding
    case Complete => content == a.receipt
    case FailureReceipt(id) => id == a.installId && content == a.failure
    case Config => false
    case Backup(_) => false
    case OtherFile(_) => false
  }

  /** The file is as it was, as the attempt writes it, or has just been created empty. */
  ghost predicate Replaced(before: Files, after: Files, path: Path, content: string) {
    || (path in before && path in after && after[path] == before[path])
    || (path !in before && path !in after)
    || (path in after && after[path] == content)
    || (path !in before && path in after && after[path] == "")
  }

  /** Backups stay, one may be added, unrelated files are left alone. */
  ghost predicate OthersKept(before: Files, after: Files)
    requires Config in before
  {
    && (forall p: Path :: p in before && (p.Backup? || p.OtherFile?) ==> p in after && after[p] == before[p])
    && (forall p: Path :: p in after && p !in before && p.OtherFile? ==> false)
    && (forall p: Path :: p in after && p !in before && p.Backup? ==> p.of == before[Config] && (after[p] == "" || after[p] == p.of))
  }

  ghost predicate FinalsKept(before: Files, after: Files, a: Attempt) {
    && Replaced(before, after, Stub, a.bootstrap) && Replaced(before, after, Binding, a.binding)
    && Replaced(before, after, RuntimeConfig, a.runtimeConfig)
  }

  /** Everything but config.yaml. */
  ghost predicate RestKept(before: Files, after: Files, a: Attempt)
    requires Config in before
  {
    Config in after && OthersKept(before, after) && FinalsKept(before, after, a) && OwnKept(before, after, a)
  }

  ghost predicate Same(before: Files, after: Files, path: Path) {
    (path in before <==> path in after) && (path in before && path in after ==> after[path] == before[path])
  }

  /** A staged copy, if there, is complete, just created or as it was. */
  ghost predicate Staged(before: Files, after: Files, path: Path, content: string) {
    path in after ==> after[path] == content || after[path] == "" || (path in before && after[path] == before[path])
  }

  /** Staged copies and receipts: those of other installations stay, its own hold what belongs there. */
  ghost predicate OwnKept(before: Files, after: Files, a: Attempt) {
    && (forall id :: id != a.installId ==>
          Same(before, after, StubStaged(id)) && Same(before, after, BindingStaged(id)) && Same(before, after, FailureReceipt(id)))
    && Staged(before, after, StubStaged(a.installId), a.bootstrap)
    && Staged(before, after, BindingStaged(a.installId), a.binding)
    && Replaced(before, after, Complete, a.receipt)
    && Replaced(before, after, FailureReceipt(a.installId), a.failure)
  }

  /** Everything that must be on disk before config.yaml is rewritten. */
  ghost predicate Ready(before: Files, after: Files, a: Attempt)
    requires Config in before
  {
    && Backup(before[Config]) in after && after[Backup(before[Config])] == before[Config]
    && Stub in after && after[Stub] == a.bootstrap
    && Binding in after && after[Binding] == a.binding
    && RuntimeConfig in after && after[RuntimeConfig] == a.runtimeConfig
  }

  ghost predicate Attempted(before: Files, after: Files, a: Attempt)
    requires Config in before
  {
    && RestKept(before, after, a)
    && (after[Config] != before[Config] ==>
          ConfigRewrite.Rewrite(before[Config]) == Success(after[Config]) && Ready(before, after, a))
  }

  lemma NothingDone(files: Files, a: Attempt)
    requires Config in files
    ensures RestKept(files, files, a)
  {
  }

  lemma WriteKeeps(before: Files, files: Files, a: Attempt, path: Path, content: string, effect: Effect)
    requires Config in before && RestKept(before, files, a) && Replaceable(path, content, a)
    ensures RestKept(before, AfterWrite(files, path, content, effect), a)
    ensures AfterWrite(files, path, content, effect)[Config] == files[Config]
    ensures Ready(before, files, a) ==> Ready(before, AfterWrite(files, path, content, effect), a)
  {
    WriteKeepsOwn(before, files, a, path, content, effect);
    WriteKeepsFinals(before, files, a, path, content, effect);
    if Ready(before, files, a) { WriteKeepsReady(before, files, a, path, content, effect); }
    hide OwnKept, FinalsKept, Ready;
  }

  lemma WriteKeepsFinals(before: Files, files: Files, a: Attempt, path: Path, content: string, effect: Effect)
    requires FinalsKept(before, files, a) && Replaceable(path, content, a)
    ensures FinalsKept(before, AfterWrite(files, path, content, effect), a)
  {
  }

  lemma WriteKeepsReady(before: Files, files: Files, a: Attempt, path: Path, content: string, effect: Effect)
    requires Config in before && Replaceable(path, content, a) && Ready(before, files, a)
    ensures Ready(before, AfterWrite(files, path, content, effect), a)
  {
  }

  lemma WriteKeepsOwn(before: Files, files: Files, a: Attempt, path: Path, content: string, effect: Effect)
    requires OwnKept(before, files, a) && Replaceable(path, content, a)
    ensures OwnKept(before, AfterWrite(files, path, content, effect), a)
  {
  }

  lemma RemoveKeeps(before: Files, files: Files, a: Attempt, path: Path)
    requires Config in before && RestKept(before, files, a) && path in {StubStaged(a.installId), BindingStaged(a.installId)}
    ensures RestKept(before, files - {path}, a) && (files - {path})[Config] == files[Config]
    ensures Ready(before, files, a) ==> Ready(before, files - {path}, a)
  {
  }

  lemma BackupKeeps(before: Files, files: Files, a: Attempt, effect: Effect)
    requires Config in before && RestKept(before, files, a) && files[Config] == before[Config]
    requires Backup(before[Config]) !in before
    ensures RestKept(before, AfterWrite(files, Backup(before[Config]), before[Config], effect), a)
    ensures AfterWrite(files, Backup(before[Config]), before[Config], effect)[Config] == before[Config]
  {
  }

  lemma RewriteKeeps(before: Files, files: Files, a: Attempt, next: string, effect: Effect)
    requires Config in before && RestKept(before, files, a) && files[Config] == before[Config]
    requires Ready(before, files, a) && ConfigRewrite.Rewrite(before[Config]) == Success(next)
    ensures Attempted(before, AfterWrite(files, Config, next, effect), a)
    ensures Ready(before, AfterWrite(files, Config, next, effect), a)
  {
    hide ConfigRewrite.Rewrite;
  }

  /** No other bytes stand under the hash of this text. */
  ghost predicate Backable(files: Files, source: string) {
    Backup(source) in files ==> files[Backup(source)] == source
  }

  /** When an attempt completes: nothing fails that it does, and no other bytes stand where its backup belongs. The
      write of a backup that is there already is not done. */
  ghost predicate Completes(before: Files, a: Attempt, fates: nat -> Fate)
    requires Config in before
  {
    && a.valid && ConfigRewrite.Rewrite(before[Config]).Success? && Backable(before, before[Config])
    && forall k :: 0 <= k < 13 && (k != 5 || Backup(before[Config]) !in before) ==> fates(k) == Fine
  }

  // ---- The installation ----

  class Folder {
    var files: Files

    constructor (files: Files)
      ensures this.files == files
    {
      this.files := files;
    }

    method Write(path: Path, content: string, fate: Fate) returns (o: Outcome)
      modifies this
      ensures files == AfterWrite(old(files), path, content, EffectOf(fate))
      ensures o == Done <==> fate == Fine
      ensures o == Done ==> files == old(files)[path := content]
      ensures o == Crashed <==> fate.Crashes?
    {
      match EffectOf(fate) {
        case Nothing =>
        case Touched => if path !in files { files := files[path := ""]; }
        case Written => files := files[path := content];
      }
      o := match fate case Fine => Done case Fails(_) => Failed case Crashes(_) => Crashed;
    }

    method Remove(path: Path, fate: Fate) returns (o: Outcome)
      modifies this
      ensures files == old(files) || files == old(files) - {path}
      ensures o == Done ==> files == old(files) - {path}
      ensures o == Done <==> fate == Fine
      ensures o == Crashed <==> fate.Crashes?
    {
      if EffectOf(fate) == Written { files := files - {path}; }
      o := match fate case Fine => Done case Fails(_) => Failed case Crashes(_) => Crashed;
    }

    /** Files of this attempt written before config.yaml is touched: the staged copies and the runtime config. */
    method Stage(a: Attempt, fates: nat -> Fate, ghost before: Files) returns (o: Outcome)
      requires Config in before && RestKept(before, files, a)
      modifies this
      ensures RestKept(before, files, a) && files[Config] == old(files)[Config]
      ensures o == Done ==> RuntimeConfig in files && files[RuntimeConfig] == a.runtimeConfig
      ensures o == Done <==> forall k :: 1 <= k < 4 ==> fates(k) == Fine
      ensures o == Crashed ==> exists k :: 1 <= k < 4 && fates(k).Crashes?
      ensures forall p: Path :: p.Backup? ==> (p in files <==> p in old(files)) && (p in files ==> files[p] == old(files)[p])
    {
      hide RestKept, Ready;
      WriteKeeps(before, files, a, StubStaged(a.installId), a.bootstrap, EffectOf(fates(1)));
      o := Write(StubStaged(a.installId), a.bootstrap, fates(1));
      if o != Done { return; }
      WriteKeeps(before, files, a, BindingStaged(a.installId), a.binding, EffectOf(fates(2)));
      o := Write(BindingStaged(a.installId), a.binding, fates(2));
      if o != Done { return; }
      WriteKeeps(before, files, a, RuntimeConfig, a.runtimeConfig, EffectOf(fates(3)));
      o := Write(RuntimeConfig, a.runtimeConfig, fates(3));
    }

    /** Keeps the current config.yaml under its hash; an existing backup is only compared. */
    method EnsureBackup(source: string, a: Attempt, readFate: Fate, writeFate: Fate, ghost before: Files) returns (o: Outcome)
      requires Config in before && RestKept(before, files, a) && files[Config] == before[Config] == source
      requires forall p: Path :: p.Backup? ==> (p in files <==> p in before)
      modifies this
      ensures RestKept(before, files, a) && files[Config] == before[Config]
      ensures o == Done ==> Backup(source) in files && files[Backup(source)] == source
      ensures forall p: Path :: p != Backup(source) ==> (p in files <==> p in old(files)) && (p in files ==> files[p] == old(files)[p])
      ensures Backup(source) !in old(files) && readFate == Fine && writeFate == Fails(Touched) ==>
        o == Failed && Backup(source) in files && files[Backup(source)] == ""
      ensures Backup(source) in old(files) && old(files)[Backup(source)] != source ==> o != Done
      ensures o == Done <==>
        readFate == Fine && if Backup(source) in old(files) then old(files)[Backup(source)] == source else writeFate == Fine
      ensures o == Crashed ==> readFate.Crashes? || writeFate.Crashes?
    {
      if readFate != Fine { return if readFate.Crashes? then Crashed else Failed; }
      if Backup(source) in files {
        return if files[Backup(source)] == source then Done else Failed;
      }
      BackupKeeps(before, files, a, EffectOf(writeFate));
      o := Write(Backup(source), source, writeFate);
    }

    /** The final bootstrap and binding, and config.yaml last. */
    method Switch(a: Attempt, next: string, fates: nat -> Fate, ghost before: Files) returns (o: Outcome)
      requires Config in before && RestKept(before, files, a) && files[Config] == before[Config]
      requires Backup(before[Config]) in files && files[Backup(before[Config])] == before[Config]
      requires RuntimeConfig in files && files[RuntimeConfig] == a.runtimeConfig
      requires ConfigRewrite.Rewrite(before[Config]) == Success(next)
      modifies this
      ensures Attempted(before, files, a)
      ensures o == Done ==> Ready(before, files, a) && files[Config] == next
      ensures o == Done <==> forall k :: 7 <= k < 10 ==> fates(k) == Fine
      ensures o == Crashed ==> exists k :: 7 <= k < 10 && fates(k).Crashes?
    {
      hide ConfigRewrite.Rewrite, RestKept, AfterWrite;
      WriteKeeps(before, files, a, Stub, a.bootstrap, EffectOf(fates(7)));
      o := Write(Stub, a.bootstrap, fates(7));
      if o != Done { return; }
      WriteKeeps(before, files, a, Binding, a.binding, EffectOf(fates(8)));
      o := Write(Binding, a.binding, fates(8));
      if o != Done { return; }
      assert Ready(before, files, a);
      RewriteKeeps(before, files, a, next, EffectOf(fates(9)));
      o := Write(Config, next, fates(9));
    }

    /** The receipt, and the staged copies removed. */
    method Finish(a: Attempt, fates: nat -> Fate, ghost before: Files) returns (o: Outcome)
      requires Config in before && Attempted(before, files, a)
      modifies this
      ensures Attempted(before, files, a) && files[Config] == old(files)[Config]
      ensures Ready(before, old(files), a) ==> Ready(before, files, a)
      ensures o == Done ==> Complete in files && files[Complete] == a.receipt
      ensures o == Done ==> StubStaged(a.installId) !in files && BindingStaged(a.installId) !in files
      ensures o == Done <==> forall k :: 10 <= k < 13 ==> fates(k) == Fine
      ensures o == Crashed ==> exists k :: 10 <= k < 13 && fates(k).Crashes?
    {
      hide ConfigRewrite.Rewrite, RestKept, Ready;
      WriteKeeps(before, files, a, Complete, a.receipt, EffectOf(fates(10)));
      o := Write(Complete, a.receipt, fates(10));
      if o != Done { return; }
      RemoveKeeps(before, files, a, StubStaged(a.installId));
      o := Remove(StubStaged(a.installId), fates(11));
      if o != Done { return; }
      RemoveKeeps(before, files, a, BindingStaged(a.installId));
      o := Remove(BindingStaged(a.installId), fates(12));
    }

    method Install(a: Attempt, fates: nat -> Fate) returns (o: Outcome)
      requires Config in files
      modifies this
      ensures Attempted(old(files), files, a)
      ensures o == Done ==>
        && Ready(old(files), files, a) && ConfigRewrite.Rewrite(old(files)[Config]) == Success(files[Config])
        && Complete in files && files[Complete] == a.receipt
        && StubStaged(a.installId) !in files && BindingStaged(a.installId) !in files
      ensures o == Done <==> Completes(old(files), a, fates)
      ensures o == Crashed ==> exists k :: 0 <= k < 13 && fates(k).Crashes?
      ensures
        var source := old(files)[Config];
        a.valid && ConfigRewrite.Rewrite(source).Success? && Backup(source) !in old(files)
        && (forall k :: 0 <= k < 5 ==> fates(k) == Fine) && fates(5) == Fails(Touched) ==>
          o == Failed && Backup(source) in files && files[Backup(source)] == ""
    {
      hide ConfigRewrite.Rewrite, RestKept, Ready;
      ghost var before := files;
      NothingDone(files, a);
      var source := files[Config];
      var next := ConfigRewrite.Rewrite(source);
      if fates(0) != Fine { return if fates(0).Crashes? then Crashed else Failed; }
      if !a.valid || next.Failure? { return Failed; }
      o := Stage(a, fates, before);
      if o != Done { return; }
      o := EnsureBackup(source, a, fates(4), fates(5), before);
      if o != Done { return; }
      if fates(6) != Fine { return if fates(6).Crashes? then Crashed else Failed; }
      if files[Config] != source { return Failed; }
      o := Switch(a, next.value, fates, before);
      if o != Done { return; }
      o := Finish(a, fates, before);
    }

    /** One attempt: whatever fails is recorded as far as possible; after a crash nothing more happens. */
    method Provision(a: Attempt, fates: nat -> Fate) returns (o: Outcome)
      requires Config in files
      modifies this
      ensures Attempted(old(files), files, a)
      ensures o == Failed && fates(13) == Fine ==> FailureReceipt(a.installId) in files && files[FailureReceipt(a.installId)] == a.failure
      ensures o == Done ==> Ready(old(files), files, a) && ConfigRewrite.Rewrite(old(files)[Config]) == Success(files[Config])
      ensures o == Done <==> Completes(old(files), a, fates)
      ensures o == Crashed ==> exists k :: 0 <= k < 14 && fates(k).Crashes?
    {
      hide ConfigRewrite.Rewrite;
      ghost var before := files;
      o := Install(a, fates);
      if o == Failed {
        WriteKeeps(before, files, a, FailureReceipt(a.installId), a.failure, EffectOf(fates(13)));
        var recorded := Write(FailureReceipt(a.installId), a.failure, fates(13));
        if recorded == Crashed { o := Crashed; }
      }
    }
  }

  // ---- Sequences of attempts ----

  ghost predicate Run(states: seq<Files>, attempts: seq<Attempt>) {
    && |states| == |attempts| + 1
    && (forall k :: 0 <= k < |states| ==> Config in states[k])
    && forall k :: 0 <= k < |attempts| ==> Attempted(states[k], states[k + 1], attempts[k])
  }

  /** The file holds what one of the attempts wrote. */
  ghost predicate FromAttempt(files: Files, attempts: seq<Attempt>) {
    && Stub in files && (exists a :: a in attempts && a.bootstrap == files[Stub])
    && Binding in files && (exists a :: a in attempts && a.binding == files[Binding])
    && RuntimeConfig in files && (exists a :: a in attempts && a.runtimeConfig == files[RuntimeConfig])
  }

  /** config.yaml is the original or its rewriting; if rewritten, the original is backed up and everything else is there. */
  ghost predicate Safe(original: string, files: Files, attempts: seq<Attempt>) {
    && Config in files
    && (files[Config] == original || ConfigRewrite.Rewrite(original) == Success(files[Config]))
    && (files[Config] != original ==>
          Backup(original) in files && files[Backup(original)] == original && FromAttempt(files, attempts))
  }

  lemma FilesStayFromAttempts(before: Files, after: Files, attempts: seq<Attempt>, a: Attempt)
    requires Config in before && RestKept(before, after, a) && FromAttempt(before, attempts)
    ensures FromAttempt(after, attempts + [a])
  {
    assert a in attempts + [a];
    assert forall x :: x in attempts ==> x in attempts + [a];
  }

  /** The text can be rewritten at most once: again it stays as it is, or is refused. */
  ghost predicate Steady(source: string) {
    var once := ConfigRewrite.Rewrite(source);
    once.Success? ==> !ConfigRewrite.StrayReturn(source) || ConfigRewrite.Rewrite(once.value).Failure?
  }

  lemma AttemptKeepsSafe(original: string, before: Files, after: Files, attempts: seq<Attempt>, a: Attempt)
    requires Steady(original)
    requires Safe(original, before, attempts) && Attempted(before, after, a)
    ensures Safe(original, after, attempts + [a])
  {
    hide ConfigRewrite.Rewrite, ConfigRewrite.StrayReturn;
    if before[Config] != original {
      FilesStayFromAttempts(before, after, attempts, a);
      if !ConfigRewrite.StrayReturn(original) { ConfigRewrite.RewriteTwice(original); }
    } else if after[Config] != original {
      assert a in attempts + [a];
    }
  }

  /** However often the installation is tried and wherever it fails or crashes: config.yaml is the old text or its
      rewriting, and a rewritten one never stands without its backup, bootstrap, binding and runtime config. */
  lemma {:induction false} InstallsAreSafe(states: seq<Files>, attempts: seq<Attempt>, k: nat)
    requires Run(states, attempts) && k < |states|
    requires Steady(states[0][Config])
    ensures Safe(states[0][Config], states[k], attempts[..k])
  {
    hide ConfigRewrite.Rewrite, ConfigRewrite.StrayReturn, Attempted, Steady;
    if k > 0 {
      InstallsAreSafe(states, attempts, k - 1);
      AttemptKeepsSafe(states[0][Config], states[k - 1], states[k], attempts[..k - 1], attempts[k - 1]);
      assert attempts[..k] == attempts[..k - 1] + [attempts[k - 1]];
    }
  }

  /** Where that condition fails, two completed installations leave neither the old text nor its rewriting. */
  lemma UnsteadyDrifts(states: seq<Files>, attempts: seq<Attempt>)
    requires Run(states, attempts) && |attempts| == 2 && !Steady(states[0][Config])
    requires ConfigRewrite.Rewrite(states[0][Config]) == Success(states[1][Config])
    requires ConfigRewrite.Rewrite(states[1][Config]) == Success(states[2][Config])
    ensures !Safe(states[0][Config], states[2], attempts)
  {
    hide ConfigRewrite.Rewrite, ConfigRewrite.StrayReturn;
    ConfigRewrite.StrayReturnNotIdempotent(states[0][Config]);
    ConfigRewrite.StrayNeverReturns(states[0][Config]);
  }

  /** A text that is just a carriage return is such a one. */
  lemma LoneReturnUnsteady(source: string)
    requires source == "\r"
    ensures ConfigRewrite.Rewrite(source).Success? && !Steady(source)
  {
    hide ConfigRewrite.Rewrite, ConfigRewrite.StrayReturn;
    ConfigRewrite.LoneReturn(source);
  }

  /** A backup, once there, is never written again. */
  lemma {:induction false} BackupsStay(states: seq<Files>, attempts: seq<Attempt>, j: nat, k: nat, content: string)
    requires Run(states, attempts) && j <= k < |states| && Backup(content) in states[j]
    ensures Backup(content) in states[k] && states[k][Backup(content)] == states[j][Backup(content)]
    decreases k
  {
    hide ConfigRewrite.Rewrite;
    if j < k {
      BackupsStay(states, attempts, j, k - 1, content);
      assert Attempted(states[k - 1], states[k], attempts[k - 1]);
    }
  }

  /** Whatever config.yaml holds, it is the first text or the rewriting of one that is backed up. */
  lemma {:induction false} ConfigIsBacked(states: seq<Files>, attempts: seq<Attempt>, k: nat)
    requires Run(states, attempts) && k < |states|
    ensures states[k][Config] == states[0][Config] || exists p ::
      ConfigRewrite.Rewrite(p) == Success(states[k][Config]) && Backup(p) in states[k] && states[k][Backup(p)] == p
  {
    hide ConfigRewrite.Rewrite;
    if k > 0 {
      ConfigIsBacked(states, attempts, k - 1);
      assert Attempted(states[k - 1], states[k], attempts[k - 1]);
      var p := states[k - 1][Config];
      if states[k][Config] != p {
        assert ConfigRewrite.Rewrite(p) == Success(states[k][Config]);
      } else if states[k - 1][Config] != states[0][Config] {
        var q :| ConfigRewrite.Rewrite(q) == Success(states[k - 1][Config]) && Backup(q) in states[k - 1] && states[k - 1][Backup(q)] == q;
        assert Backup(q) in states[k];
      }
    }
  }

  /** A backup that a failed write left empty blocks every later attempt: the text it stands for is never replaced. */
  lemma {:induction false} EmptyBackupBlocks(states: seq<Files>, attempts: seq<Attempt>, k: nat)
    requires Run(states, attempts) && k < |states|
    requires var c := states[0][Config]; Backup(c) in states[0] && states[0][Backup(c)] != c
    ensures states[k][Config] == states[0][Config]
  {
    hide ConfigRewrite.Rewrite;
    var c := states[0][Config];
    BackupsStay(states, attempts, 0, k, c);
    if k > 0 {
      EmptyBackupBlocks(states, attempts, k - 1);
      assert Attempted(states[k - 1], states[k], attempts[k - 1]);
    }
  }
}
