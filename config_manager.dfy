/**
 * ConfigManager: validation of a configuration (field checks, then checks on how the three
 * directories relate), merging of an override into a base configuration, and parsing of
 * `--key=value` command-line arguments into a configuration.
 *
 * The host's path resolution (`Path.GetFullPath`, `None` where it throws) and directory
 * test (`Directory.Exists`) are parameters.
 */
module ConfigManagement {
  import opened Wrappers
  import opened Text
  import opened Configs

  /** `Path.GetFullPath`: the absolute form of a path, or `None` where it throws. */
  type FullPath = string -> Option<string>

  /** `Directory.Exists`. */
  type DirExists = string -> bool

  // ---------------------------------------------------------------------------------------
  // IsSubPathOf

  /**
   * `IsSubPathOf(outer, inner)`: the full form of `inner` starts with the full form of
   * `outer`, ignoring case; false when either cannot be resolved.
   */
  function IsSubPathOf(fullPath: FullPath, outerPath: string, innerPath: string): (r: bool)
    ensures r ==> fullPath(outerPath).Some? && fullPath(innerPath).Some?
    ensures r ==> |fullPath(outerPath).value| <= |fullPath(innerPath).value|
  {
    match (fullPath(outerPath), fullPath(innerPath))
    case (Some(outer), Some(inner)) => StartsWithIgnoreCase(inner, outer)
    case _ => false
  }

  /** Every resolvable path is inside itself; an unresolvable one is inside nothing. */
  lemma SubPathOfItself(fullPath: FullPath, p: string)
    ensures IsSubPathOf(fullPath, p, p) <==> fullPath(p).Some?
  {
    if fullPath(p).Some? {
      var full := fullPath(p).value;
      assert full[..|full|] == full;
    }
  }

  lemma SubPathTransitive(fullPath: FullPath, a: string, b: string, c: string)
    requires IsSubPathOf(fullPath, a, b) && IsSubPathOf(fullPath, b, c)
    ensures IsSubPathOf(fullPath, a, c)
  {
    StartsWithIgnoreCaseTransitive(fullPath(c).value, fullPath(b).value, fullPath(a).value);
  }

  /** Two paths are inside each other exactly when their full forms are equal ignoring case. */
  lemma MutualSubPaths(fullPath: FullPath, a: string, b: string)
    ensures IsSubPathOf(fullPath, a, b) && IsSubPathOf(fullPath, b, a) <==>
            fullPath(a).Some? && fullPath(b).Some? && EqualsIgnoreCase(fullPath(a).value, fullPath(b).value)
  {
    if fullPath(a).Some? && fullPath(b).Some? {
      MutualPrefixes(fullPath(a).value, fullPath(b).value);
    }
  }

  /**
   * The test compares characters, not path components: with paths already absolute, a
   * sibling whose name extends the other's counts as inside it, whatever the case.
   */
  lemma SubPathIgnoresComponents()
    ensures IsSubPathOf(p => Some(p), "/data/Sync", "/data/sync-old")
  {
    assert "/data/sync-old"[..10] == "/data/sync";
  }

  // ---------------------------------------------------------------------------------------
  // ValidatePaths and ValidateConfig

  /** The complaints ValidatePaths can append, one per rule. */
  datatype PathProblem =
    | SameOriginTarget | LogsIsOrigin | LogsIsTarget
    | TargetNested | LogsInOrigin | LogsInTarget

  /** The complaints ValidateConfig's field checks can append. */
  datatype FieldProblem =
    | SourceNotProvided | SourceNotFound | ReplicaNotProvided | ReplicaNotFound
    | LogsNotProvided | LogsNotFound | InvalidInterval | ArchiveNotSet

  /** One line of the validation message. */
  datatype Problem = Field(field: FieldProblem) | Path(path: PathProblem)

  /** When ValidatePaths complains with `p`. */
  predicate Violates(fullPath: FullPath, originPath: string, targetPath: string, logsPath: string, p: PathProblem) {
    match p
    case SameOriginTarget => EqualsIgnoreCase(originPath, targetPath)
    case LogsIsOrigin => EqualsIgnoreCase(originPath, logsPath)
    case LogsIsTarget => EqualsIgnoreCase(targetPath, logsPath)
    case TargetNested => IsSubPathOf(fullPath, originPath, targetPath) || IsSubPathOf(fullPath, targetPath, originPath)
    case LogsInOrigin => IsSubPathOf(fullPath, originPath, logsPath)
    case LogsInTarget => IsSubPathOf(fullPath, targetPath, logsPath)
  }

  predicate PathsValid(fullPath: FullPath, originPath: string, targetPath: string, logsPath: string) {
    forall p :: !Violates(fullPath, originPath, targetPath, logsPath, p)
  }

  /** When ValidateConfig's field checks complain with `f`. */
  predicate FieldViolated(dirExists: DirExists, config: Config, f: FieldProblem) {
    match f
    case SourceNotProvided => config.sourceDirectoryPath == ""
    case SourceNotFound => config.sourceDirectoryPath != "" && !dirExists(config.sourceDirectoryPath)
    case ReplicaNotProvided => config.replicaDirectoryPath == ""
    case ReplicaNotFound => config.replicaDirectoryPath != "" && !dirExists(config.replicaDirectoryPath)
    case LogsNotProvided => config.logsDirectory == ""
    case LogsNotFound => config.logsDirectory != "" && !dirExists(config.logsDirectory)
    case InvalidInterval => config.syncIntervalSeconds.None? || config.syncIntervalSeconds.value <= 0
    case ArchiveNotSet => config.archiveEnabled.None?
  }

  predicate FieldsValid(dirExists: DirExists, config: Config) {
    forall f :: !FieldViolated(dirExists, config, f)
  }

  /** A configuration ValidateConfig accepts. */
  predicate ConfigValid(dirExists: DirExists, fullPath: FullPath, config: Config) {
    && FieldsValid(dirExists, config)
    && PathsValid(fullPath, config.sourceDirectoryPath, config.replicaDirectoryPath, config.logsDirectory)
  }

  /**
   * The number of checks ValidateConfig makes, each adding at most one line: five on the
   * fields (a path either missing or not found, the interval, the archiving switch), then
   * six on the paths.
   */
  const CheckCount := 11

  /** The check that can complain with `q`, by its position in ValidateConfig's order. */
  function Rank(q: Problem): (r: nat)
    ensures r < CheckCount && (r < 5 <==> q.Field?)
  {
    match q
    case Field(SourceNotProvided) => 0
    case Field(SourceNotFound) => 0
    case Field(ReplicaNotProvided) => 1
    case Field(ReplicaNotFound) => 1
    case Field(LogsNotProvided) => 2
    case Field(LogsNotFound) => 2
    case Field(InvalidInterval) => 3
    case Field(ArchiveNotSet) => 4
    case Path(SameOriginTarget) => 5
    case Path(LogsIsOrigin) => 6
    case Path(LogsIsTarget) => 7
    case Path(TargetNested) => 8
    case Path(LogsInOrigin) => 9
    case Path(LogsInTarget) => 10
  }

  /** Lines listed in the order of the checks that added them, hence none twice. */
  predicate InCheckOrder(message: seq<Problem>) {
    forall i, j :: 0 <= i < j < |message| ==> Rank(message[i]) < Rank(message[j])
  }

  /** What a group of checks looks at: the three paths, or the configuration's fields. */
  datatype Checked =
    | Paths(fullPath: FullPath, originPath: string, targetPath: string, logsPath: string)
    | Fields(dirExists: DirExists, config: Config)

  /** Whether `q` is a rule of the group `c` that `c` breaks. */
  predicate Broken(c: Checked, q: Problem) {
    match c
    case Paths(fullPath, originPath, targetPath, logsPath) =>
      q.Path? && Violates(fullPath, originPath, targetPath, logsPath, q.path)
    case Fields(dirExists, config) => q.Field? && FieldViolated(dirExists, config, q.field)
  }

  /** The complaint about a directory path: missing, else not found. */
  function DirComplaint(dirExists: DirExists, path: string, notProvided: FieldProblem, notFound: FieldProblem)
    : Option<Problem>
  {
    if path == "" then Some(Field(notProvided))
    else if !dirExists(path) then Some(Field(notFound))
    else None
  }

  /** The complaint, if any, of the check at position `k` on the group `c`. */
  function Complaint(c: Checked, k: nat): Option<Problem>
    requires k < CheckCount
  {
    match c
    case Fields(dirExists, config) =>
      if k == 0 then DirComplaint(dirExists, config.sourceDirectoryPath, SourceNotProvided, SourceNotFound)
      else if k == 1 then DirComplaint(dirExists, config.replicaDirectoryPath, ReplicaNotProvided, ReplicaNotFound)
      else if k == 2 then DirComplaint(dirExists, config.logsDirectory, LogsNotProvided, LogsNotFound)
      else if k == 3 then
        if config.syncIntervalSeconds.None? || config.syncIntervalSeconds.value <= 0 then Some(Field(InvalidInterval))
        else None
      else if k == 4 then (if config.archiveEnabled.None? then Some(Field(ArchiveNotSet)) else None)
      else None
    case Paths(fullPath, originPath, targetPath, logsPath) =>
      if k < 5 then None
      else
        var p := [SameOriginTarget, LogsIsOrigin, LogsIsTarget, TargetNested, LogsInOrigin, LogsInTarget][k - 5];
        if Violates(fullPath, originPath, targetPath, logsPath, p) then Some(Path(p)) else None
  }

  /** A check complains with `q` exactly when `q` is its rule and is broken. */
  lemma ComplaintExact(c: Checked, k: nat, q: Problem)
    requires k < CheckCount
    ensures Complaint(c, k) == Some(q) <==> Rank(q) == k && Broken(c, q)
  {
  }

  /** The line the check at position `k` adds. */
  function Line(c: Checked, k: nat): seq<Problem>
    requires k < CheckCount
  {
    match Complaint(c, k)
    case Some(q) => [q]
    case None => []
  }

  /** The lines the checks from position `lo` up to but excluding `hi` add, in order. */
  function Flagged(c: Checked, lo: nat, hi: nat): seq<Problem>
    requires lo <= hi <= CheckCount
    decreases hi
  {
    if hi == lo then [] else Flagged(c, lo, hi - 1) + Line(c, hi - 1)
  }

  /** A message holds exactly the rules of its checks that are broken. */
  lemma {:induction false} FlaggedExactly(c: Checked, lo: nat, hi: nat)
    requires lo <= hi <= CheckCount
    ensures forall q :: q in Flagged(c, lo, hi) <==> lo <= Rank(q) < hi && Broken(c, q)
    decreases hi
  {
    if hi > lo {
      FlaggedExactly(c, lo, hi - 1);
      forall q {
        ComplaintExact(c, hi - 1, q);
      }
    }
  }

  /** A message lists its lines in the order of the checks. */
  lemma {:induction false} FlaggedInOrder(c: Checked, lo: nat, hi: nat)
    requires lo <= hi <= CheckCount
    ensures InCheckOrder(Flagged(c, lo, hi))
    decreases hi
  {
    if hi > lo {
      FlaggedInOrder(c, lo, hi - 1);
      FlaggedExactly(c, lo, hi - 1);
      var rest := Flagged(c, lo, hi - 1);
      match Complaint(c, hi - 1)
      case None =>
        assert Flagged(c, lo, hi) == rest + [];
      case Some(q) =>
        ComplaintExact(c, hi - 1, q);
        forall i | 0 <= i < |rest| ensures Rank(rest[i]) < Rank(q) {
          assert rest[i] in rest;
        }
        InOrderSnoc(rest, q);
    }
  }

  /** A line added after lines of earlier checks keeps the order. */
  lemma InOrderSnoc(message: seq<Problem>, q: Problem)
    requires InCheckOrder(message)
    requires forall i :: 0 <= i < |message| ==> Rank(message[i]) < Rank(q)
    ensures InCheckOrder(message + [q])
  {
    var m := message + [q];
    forall i, j | 0 <= i < j < |m| ensures Rank(m[i]) < Rank(m[j]) {
      assert m[i] == message[i];
    }
  }

  /** The path checks' message, check by check, in ValidatePaths' own terms. */
  lemma PathLines(fullPath: FullPath, originPath: string, targetPath: string, logsPath: string)
    ensures Flagged(Paths(fullPath, originPath, targetPath, logsPath), 5, CheckCount) ==
            []
            + (if EqualsIgnoreCase(originPath, targetPath) then [Path(SameOriginTarget)] else [])
            + (if EqualsIgnoreCase(originPath, logsPath) then [Path(LogsIsOrigin)] else [])
            + (if EqualsIgnoreCase(targetPath, logsPath) then [Path(LogsIsTarget)] else [])
            + (if IsSubPathOf(fullPath, originPath, targetPath) || IsSubPathOf(fullPath, targetPath, originPath)
               then [Path(TargetNested)] else [])
            + (if IsSubPathOf(fullPath, originPath, logsPath) then [Path(LogsInOrigin)] else [])
            + (if IsSubPathOf(fullPath, targetPath, logsPath) then [Path(LogsInTarget)] else [])
  {
    var c := Paths(fullPath, originPath, targetPath, logsPath);
    assert Flagged(c, 5, 6) == [] + Line(c, 5);
    assert Flagged(c, 5, 7) == Flagged(c, 5, 6) + Line(c, 6);
    assert Flagged(c, 5, 8) == Flagged(c, 5, 7) + Line(c, 7);
    assert Flagged(c, 5, 9) == Flagged(c, 5, 8) + Line(c, 8);
    assert Flagged(c, 5, 10) == Flagged(c, 5, 9) + Line(c, 9);
    assert Flagged(c, 5, 11) == Flagged(c, 5, 10) + Line(c, 10);
  }

  /** The path checks' message names exactly the broken path rules. */
  lemma PathMessageExact(fullPath: FullPath, originPath: string, targetPath: string, logsPath: string)
    ensures var m := Flagged(Paths(fullPath, originPath, targetPath, logsPath), 5, CheckCount);
      forall q :: q in m <==> q.Path? && Violates(fullPath, originPath, targetPath, logsPath, q.path)
  {
    FlaggedExactly(Paths(fullPath, originPath, targetPath, logsPath), 5, CheckCount);
  }

  /** The path checks' message is empty exactly when the paths are valid. */
  lemma PathMessageEmpty(fullPath: FullPath, originPath: string, targetPath: string, logsPath: string)
    ensures Flagged(Paths(fullPath, originPath, targetPath, logsPath), 5, CheckCount) == [] <==>
            PathsValid(fullPath, originPath, targetPath, logsPath)
  {
    var m := Flagged(Paths(fullPath, originPath, targetPath, logsPath), 5, CheckCount);
    PathMessageExact(fullPath, originPath, targetPath, logsPath);
    if m != [] {
      assert m[0] in m;
    }
    if !PathsValid(fullPath, originPath, targetPath, logsPath) {
      var p :| Violates(fullPath, originPath, targetPath, logsPath, p);
      assert Path(p) in m;
    }
  }

  /**
   * ValidatePaths: one complaint for each pair of the three paths that are equal ignoring
   * case, for the source and the replica lying inside one another, and for the logs folder
   * lying inside the source or the replica; valid exactly when there is no complaint.
   * Whether the source or the replica lies inside the logs folder is not checked.
   */
  method ValidatePaths(fullPath: FullPath, originPath: string, targetPath: string, logsPath: string)
    returns (valid: bool, message: seq<Problem>)
    ensures message == Flagged(Paths(fullPath, originPath, targetPath, logsPath), 5, CheckCount)
    ensures forall q :: q in message <==> q.Path? && Violates(fullPath, originPath, targetPath, logsPath, q.path)
    ensures InCheckOrder(message)
    ensures valid <==> message == []
    ensures valid <==> PathsValid(fullPath, originPath, targetPath, logsPath)
  {
    message := [];
    message := message + (if EqualsIgnoreCase(originPath, targetPath) then [Path(SameOriginTarget)] else []);
    message := message + (if EqualsIgnoreCase(originPath, logsPath) then [Path(LogsIsOrigin)] else []);
    message := message + (if EqualsIgnoreCase(targetPath, logsPath) then [Path(LogsIsTarget)] else []);
    message := message + (if IsSubPathOf(fullPath, originPath, targetPath) || IsSubPathOf(fullPath, targetPath, originPath)
                          then [Path(TargetNested)] else []);
    message := message + (if IsSubPathOf(fullPath, originPath, logsPath) then [Path(LogsInOrigin)] else []);
    message := message + (if IsSubPathOf(fullPath, targetPath, logsPath) then [Path(LogsInTarget)] else []);
    valid := |message| == 0;
    PathLines(fullPath, originPath, targetPath, logsPath);
    PathMessageExact(fullPath, originPath, targetPath, logsPath);
    PathMessageEmpty(fullPath, originPath, targetPath, logsPath);
    FlaggedInOrder(Paths(fullPath, originPath, targetPath, logsPath), 5, CheckCount);
  }

  /** The field checks' message, check by check, in ValidateConfig's own terms. */
  lemma FieldLines(dirExists: DirExists, config: Config)
    ensures Flagged(Fields(dirExists, config), 0, 5) ==
            []
            + (if config.sourceDirectoryPath == "" then [Field(SourceNotProvided)]
               else if !dirExists(config.sourceDirectoryPath) then [Field(SourceNotFound)] else [])
            + (if config.replicaDirectoryPath == "" then [Field(ReplicaNotProvided)]
               else if !dirExists(config.replicaDirectoryPath) then [Field(ReplicaNotFound)] else [])
            + (if config.logsDirectory == "" then [Field(LogsNotProvided)]
               else if !dirExists(config.logsDirectory) then [Field(LogsNotFound)] else [])
            + (if config.syncIntervalSeconds.None? || config.syncIntervalSeconds.value <= 0
               then [Field(InvalidInterval)] else [])
            + (if config.archiveEnabled.None? then [Field(ArchiveNotSet)] else [])
  {
    var c := Fields(dirExists, config);
    assert Flagged(c, 0, 1) == [] + Line(c, 0);
    assert Flagged(c, 0, 2) == Flagged(c, 0, 1) + Line(c, 1);
    assert Flagged(c, 0, 3) == Flagged(c, 0, 2) + Line(c, 2);
    assert Flagged(c, 0, 4) == Flagged(c, 0, 3) + Line(c, 3);
    assert Flagged(c, 0, 5) == Flagged(c, 0, 4) + Line(c, 4);
  }

  /** The field checks' message names exactly the broken field rules. */
  lemma FieldMessageExact(dirExists: DirExists, config: Config)
    ensures var m := Flagged(Fields(dirExists, config), 0, 5);
      forall q :: q in m <==> q.Field? && FieldViolated(dirExists, config, q.field)
  {
    FlaggedExactly(Fields(dirExists, config), 0, 5);
  }

  /** The field checks' message is empty exactly when every field is valid. */
  lemma FieldMessageEmpty(dirExists: DirExists, config: Config)
    ensures Flagged(Fields(dirExists, config), 0, 5) == [] <==> FieldsValid(dirExists, config)
  {
    var m := Flagged(Fields(dirExists, config), 0, 5);
    FieldMessageExact(dirExists, config);
    if m != [] {
      assert m[0] in m;
    }
    if !FieldsValid(dirExists, config) {
      var f :| FieldViolated(dirExists, config, f);
      assert Field(f) in m;
    }
  }

  /**
   * ValidateConfig: every field check runs and adds its complaint, so all field problems
   * are reported together; the path checks run only when no field check complained; valid
   * exactly when there is no complaint.
   */
  method ValidateConfig(dirExists: DirExists, fullPath: FullPath, config: Config) returns (valid: bool, message: seq<Problem>)
    ensures var fields := Flagged(Fields(dirExists, config), 0, 5);
      message == if fields == [] then Flagged(Paths(fullPath, config.sourceDirectoryPath, config.replicaDirectoryPath,
                                                         config.logsDirectory), 5, CheckCount)
                 else fields
    ensures forall f :: Field(f) in message <==> FieldViolated(dirExists, config, f)
    ensures forall p :: Path(p) in message <==>
              FieldsValid(dirExists, config) &&
              Violates(fullPath, config.sourceDirectoryPath, config.replicaDirectoryPath, config.logsDirectory, p)
    ensures InCheckOrder(message)
    ensures valid <==> message == []
    ensures valid <==> ConfigValid(dirExists, fullPath, config)
  {
    message := [];
    message := message + (if config.sourceDirectoryPath == "" then [Field(SourceNotProvided)]
                          else if !dirExists(config.sourceDirectoryPath) then [Field(SourceNotFound)] else []);
    message := message + (if config.replicaDirectoryPath == "" then [Field(ReplicaNotProvided)]
                          else if !dirExists(config.replicaDirectoryPath) then [Field(ReplicaNotFound)] else []);
    message := message + (if config.logsDirectory == "" then [Field(LogsNotProvided)]
                          else if !dirExists(config.logsDirectory) then [Field(LogsNotFound)] else []);
    message := message + (if config.syncIntervalSeconds.None? || config.syncIntervalSeconds.value <= 0
                          then [Field(InvalidInterval)] else []);
    message := message + (if config.archiveEnabled.None? then [Field(ArchiveNotSet)] else []);
    FieldLines(dirExists, config);
    FieldMessageExact(dirExists, config);
    FieldMessageEmpty(dirExists, config);
    FlaggedInOrder(Fields(dirExists, config), 0, 5);
    if |message| == 0 {
      var pathsValid, pathMessages := ValidatePaths(fullPath, config.sourceDirectoryPath, config.replicaDirectoryPath,
                                                    config.logsDirectory);
      if !pathsValid {
        message := message + pathMessages;
      }
      assert message == pathMessages;
    }
    valid := |message| == 0;
  }

  /** GetDefaultConfig is rejected, for its three empty paths and nothing else. */
  lemma DefaultConfigInvalid(dirExists: DirExists, fullPath: FullPath)
    ensures forall f :: FieldViolated(dirExists, GetDefaultConfig(), f) <==>
              f == SourceNotProvided || f == ReplicaNotProvided || f == LogsNotProvided
    ensures !ConfigValid(dirExists, fullPath, GetDefaultConfig())
  {
    assert FieldViolated(dirExists, GetDefaultConfig(), SourceNotProvided);
  }

  /**
   * An `--interval` argument `s` is stored as its parsed value, or 0 when it does not parse;
   * the interval check then fails exactly when `s` is not a positive `int`, and a
   * configuration with such an interval is rejected.
   */
  lemma IntervalArgumentChecked(dirExists: DirExists, fullPath: FullPath, config: Config, s: string)
    requires config.syncIntervalSeconds == Some(ParseInt32(s).GetOr(0))
    ensures FieldViolated(dirExists, config, InvalidInterval) <==> ParseInt32(s).None? || ParseInt32(s).value <= 0
    ensures ParseInt32(s).None? || ParseInt32(s).value <= 0 ==> !ConfigValid(dirExists, fullPath, config)
  {
    if ParseInt32(s).None? || ParseInt32(s).value <= 0 {
      assert FieldViolated(dirExists, config, InvalidInterval);
    }
  }

  /**
   * A source folder inside the logs folder passes the path checks: only the logs folder
   * inside the source or the replica is rejected.
   */
  lemma SourceInsideLogsAccepted()
    ensures PathsValid(p => Some(p), "/data/src", "/backup/replica", "/data")
  {
    var fullPath: FullPath := p => Some(p);
    forall p ensures !Violates(fullPath, "/data/src", "/backup/replica", "/data", p) {
      assert "/data/src"[1] != "/backup/replica"[1];
      assert "/backup/replica"[1] != "/data"[1];
      assert "/data"[..5] != "/data/src";
      assert "/data/src"[..5] == "/data";
    }
  }

  // ---------------------------------------------------------------------------------------
  // MergeConfigInPlace

  /** A path setting of the override replaces the base's when it is not empty. */
  function OverridePath(basePath: string, overridePath: string): string {
    if overridePath != "" then overridePath else basePath
  }

  /** A nullable setting of the override replaces the base's when it is set. */
  function OverrideValue<T>(baseValue: Option<T>, overrideValue: Option<T>): Option<T> {
    if overrideValue.Some? then overrideValue else baseValue
  }

  /** The configuration MergeConfigInPlace leaves in its base argument. */
  function Merged(baseConfig: Config, overrideConfig: Config): Config {
    Config(OverridePath(baseConfig.sourceDirectoryPath, overrideConfig.sourceDirectoryPath),
           OverridePath(baseConfig.replicaDirectoryPath, overrideConfig.replicaDirectoryPath),
           OverridePath(baseConfig.logsDirectory, overrideConfig.logsDirectory),
           OverrideValue(baseConfig.syncIntervalSeconds, overrideConfig.syncIntervalSeconds),
           OverrideValue(baseConfig.archiveEnabled, overrideConfig.archiveEnabled))
  }

  /** MergeConfigInPlace: the override's non-empty, non-null settings, field by field. */
  method MergeConfigInPlace(baseConfig: Config, overrideConfig: Config) returns (merged: Config)
    ensures merged == Merged(baseConfig, overrideConfig)
  {
    merged := baseConfig;
    if overrideConfig.sourceDirectoryPath != "" {
      merged := merged.(sourceDirectoryPath := overrideConfig.sourceDirectoryPath);
    }
    if overrideConfig.replicaDirectoryPath != "" {
      merged := merged.(replicaDirectoryPath := overrideConfig.replicaDirectoryPath);
    }
    if overrideConfig.logsDirectory != "" {
      merged := merged.(logsDirectory := overrideConfig.logsDirectory);
    }
    if overrideConfig.syncIntervalSeconds.Some? {
      merged := merged.(syncIntervalSeconds := overrideConfig.syncIntervalSeconds);
    }
    if overrideConfig.archiveEnabled.Some? {
      merged := merged.(archiveEnabled := overrideConfig.archiveEnabled);
    }
  }

  /** Applying the same override twice is applying it once. */
  lemma MergeIdempotent(baseConfig: Config, overrideConfig: Config)
    ensures Merged(Merged(baseConfig, overrideConfig), overrideConfig) == Merged(baseConfig, overrideConfig)
  {
  }

  /** Merging GetEmptyConfig changes nothing, and a config merged into itself is unchanged. */
  lemma MergeEmptyOrSelf(config: Config)
    ensures Merged(config, GetEmptyConfig()) == config
    ensures Merged(config, config) == config
  {
  }

  /** Merging two overrides in turn is merging the second over the first in one go. */
  lemma MergeAssociative(a: Config, b: Config, c: Config)
    ensures Merged(Merged(a, b), c) == Merged(a, Merged(b, c))
  {
  }

  /** Each setting comes from the override exactly when the override has it. */
  lemma MergeFields(baseConfig: Config, overrideConfig: Config)
    ensures var m := Merged(baseConfig, overrideConfig);
      && (m.sourceDirectoryPath == overrideConfig.sourceDirectoryPath || m.sourceDirectoryPath == baseConfig.sourceDirectoryPath)
      && (overrideConfig.sourceDirectoryPath != "" ==> m.sourceDirectoryPath == overrideConfig.sourceDirectoryPath)
      && (overrideConfig.replicaDirectoryPath != "" ==> m.replicaDirectoryPath == overrideConfig.replicaDirectoryPath)
      && (overrideConfig.replicaDirectoryPath == "" ==> m.replicaDirectoryPath == baseConfig.replicaDirectoryPath)
      && (overrideConfig.logsDirectory != "" ==> m.logsDirectory == overrideConfig.logsDirectory)
      && (overrideConfig.logsDirectory == "" ==> m.logsDirectory == baseConfig.logsDirectory)
      && (overrideConfig.sourceDirectoryPath == "" ==> m.sourceDirectoryPath == baseConfig.sourceDirectoryPath)
      && (overrideConfig.syncIntervalSeconds.Some? ==> m.syncIntervalSeconds == overrideConfig.syncIntervalSeconds)
      && (overrideConfig.syncIntervalSeconds.None? ==> m.syncIntervalSeconds == baseConfig.syncIntervalSeconds)
      && (overrideConfig.archiveEnabled.Some? ==> m.archiveEnabled == overrideConfig.archiveEnabled)
      && (overrideConfig.archiveEnabled.None? ==> m.archiveEnabled == baseConfig.archiveEnabled)
  {
  }

  // ---------------------------------------------------------------------------------------
  // ParseArgumentsToConfig

  /**
   * `s.Split(sep, 2)` when it yields two parts: the text before the first `sep` and the
   * text after it; `None` when `s` has no `sep`.
   */
  function SplitAtFirst(s: string, sep: char): (r: Option<(string, string)>)
    ensures r.None? <==> sep !in s
    ensures r.Some? ==> s == r.value.0 + [sep] + r.value.1 && sep !in r.value.0
  {
    if s == [] then None
    else if s[0] == sep then Some(([], s[1..]))
    else match SplitAtFirst(s[1..], sep)
      case None => None
      case Some(parts) => Some(([s[0]] + parts.0, parts.1))
  }

  /** Splitting undoes joining at a separator the first part does not contain. */
  lemma {:induction false} SplitAtFirstJoin(key: string, sep: char, value: string)
    requires sep !in key
    ensures SplitAtFirst(key + [sep] + value, sep) == Some((key, value))
  {
    var s := key + [sep] + value;
    if key == [] {
      assert s[0] == sep && s[1..] == value;
    } else {
      assert s[0] == key[0] && s[1..] == key[1..] + [sep] + value;
      SplitAtFirstJoin(key[1..], sep, value);
      assert [key[0]] + key[1..] == key;
    }
  }

  /** One `--key=value` argument: its key lower-cased and its value; `None` without '='. */
  function Argument(arg: string): Option<(string, string)> {
    match SplitAtFirst(arg, '=')
    case None => None
    case Some(parts) => Some((ToLower(parts.0), parts.1))
  }

  /**
   * The dictionary the loop fills: each argument in turn overwrites its key's entry. Every
   * key is lower case; with the invariant culture's casing modelled here, `--Source=` and
   * `--SOURCE=` both give `--source` (a Turkish culture would lower 'I' to a dotless 'ı').
   */
  function Arguments(args: seq<string>): (r: map<string, string>)
    ensures forall key :: key in r ==> NoUpperCase(key)
  {
    if args == [] then map[]
    else
      var rest := Arguments(args[..|args| - 1]);
      match Argument(args[|args| - 1])
      case None => rest
      case Some(kv) => rest[kv.0 := kv.1]
  }

  /** A key is in the dictionary exactly when some argument has it. */
  lemma {:induction false} ArgumentsKeys(args: seq<string>, key: string)
    ensures key in Arguments(args) <==> exists i :: 0 <= i < |args| && Argument(args[i]).Some? && Argument(args[i]).value.0 == key
  {
    if args != [] {
      var init := args[..|args| - 1];
      ArgumentsKeys(init, key);
      assert forall i :: 0 <= i < |init| ==> init[i] == args[i];
    }
  }

  /** The value of a key is that of the last argument with that key: a later duplicate wins. */
  lemma {:induction false} ArgumentsLastWins(args: seq<string>, i: int)
    requires 0 <= i < |args| && Argument(args[i]).Some?
    requires forall j :: i < j < |args| && Argument(args[j]).Some? ==> Argument(args[j]).value.0 != Argument(args[i]).value.0
    ensures Argument(args[i]).value.0 in Arguments(args)
    ensures Arguments(args)[Argument(args[i]).value.0] == Argument(args[i]).value.1
  {
    if i < |args| - 1 {
      var init := args[..|args| - 1];
      assert init[i] == args[i];
      ArgumentsLastWins(init, i);
    }
  }

  predicate AllDigits(s: string) {
    forall i :: 0 <= i < |s| ==> IsDigit(s[i])
  }

  /** The value of trimmed text: an optional sign followed by at least one decimal digit. */
  function SignedValue(t: string): (r: Option<int>)
    ensures r.Some? <==> (t != [] && AllDigits(t)) || (|t| >= 2 && (t[0] == '-' || t[0] == '+') && AllDigits(t[1..]))
    ensures r.Some? && r.value < 0 ==> t[0] == '-'
  {
    if t == [] then None
    else
      var digits := if t[0] == '-' || t[0] == '+' then t[1..] else t;
      if digits == [] || !AllDigits(digits) then None
      else if t[0] == '-' then Some(-(DigitsValue(digits) as int))
      else Some(DigitsValue(digits))
  }

  /**
   * `int.TryParse` with .NET's default integer style: surrounding white space, an optional
   * sign, decimal digits, and a value that fits an `int`; `None` where it returns false.
   */
  function ParseInt32(s: string): (r: Option<Int32>)
    ensures r.Some? ==> Trim(s) != []
  {
    match SignedValue(Trim(s))
    case Some(v) => if MinInt32 <= v <= MaxInt32 then Some(v) else None
    case None => None
  }

  /**
   * `s` read as integer text: white space `w1`, a sign `sg` that is empty, "+" or "-", the
   * decimal digits `ds` (at least one), and white space `w2`.
   */
  predicate IntegerText(s: string, w1: string, sg: string, ds: string, w2: string) {
    && s == w1 + sg + ds + w2
    && AllWhite(w1) && AllWhite(w2)
    && (sg == "" || sg == "+" || sg == "-")
    && ds != [] && AllDigits(ds)
  }

  /** The value integer text denotes: its digits, negated after a "-". */
  function SignedDigits(sg: string, ds: string): int
    requires AllDigits(ds)
  {
    if sg == "-" then -(DigitsValue(ds) as int) else DigitsValue(ds)
  }

  /**
   * Exactly the texts `int.TryParse` accepts: optional white space, an optional sign, at least
   * one digit, optional white space, with a value that fits an `int`; the value is the one
   * the digits and the sign denote.
   */
  lemma ParseInt32Exact(s: string, v: int)
    ensures ParseInt32(s).Some? && ParseInt32(s).value == v <==>
      exists w1, sg, ds, w2 {:trigger IntegerText(s, w1, sg, ds, w2)} ::
        IntegerText(s, w1, sg, ds, w2) && v == SignedDigits(sg, ds) && MinInt32 <= v <= MaxInt32
  {
    if exists w1, sg, ds, w2 {:trigger IntegerText(s, w1, sg, ds, w2)} ::
         IntegerText(s, w1, sg, ds, w2) && v == SignedDigits(sg, ds) && MinInt32 <= v <= MaxInt32 {
      var w1, sg, ds, w2 :| IntegerText(s, w1, sg, ds, w2) && v == SignedDigits(sg, ds) && MinInt32 <= v <= MaxInt32;
      ParsesText(s, w1, sg, ds, w2);
    }
    if ParseInt32(s).Some? && ParseInt32(s).value == v {
      var w1, sg, ds, w2 := TextOfParse(s);
      assert IntegerText(s, w1, sg, ds, w2) && v == SignedDigits(sg, ds);
    }
  }

  /** Integer text parses to the value it denotes, when that fits an `int`. */
  lemma ParsesText(s: string, w1: string, sg: string, ds: string, w2: string)
    requires IntegerText(s, w1, sg, ds, w2)
    ensures var v := SignedDigits(sg, ds);
      (ParseInt32(s).Some? <==> MinInt32 <= v <= MaxInt32) && (ParseInt32(s).Some? ==> ParseInt32(s).value == v)
  {
    var x := sg + ds;
    assert s == w1 + x + w2;
    assert x[|x| - 1] == ds[|ds| - 1];
    assert x[0] == if sg == "" then ds[0] else sg[0];
    assert IsDigit(ds[0]) && IsDigit(ds[|ds| - 1]);
    TrimSurrounded(w1, x, w2);
    SignedOfParts(sg, ds);
  }

  /** A sign followed by digits has the value `SignedDigits` gives it. */
  lemma SignedOfParts(sg: string, ds: string)
    requires (sg == "" || sg == "+" || sg == "-") && ds != [] && AllDigits(ds)
    ensures SignedValue(sg + ds) == Some(SignedDigits(sg, ds))
  {
    var t := sg + ds;
    if sg == "" {
      assert t == ds;
    } else {
      assert t[0] == sg[0] && t[1..] == ds;
    }
  }

  /** A text that parses splits as integer text around its trimmed part. */
  lemma TextOfParse(s: string) returns (w1: string, sg: string, ds: string, w2: string)
    requires ParseInt32(s).Some?
    ensures IntegerText(s, w1, sg, ds, w2) && ParseInt32(s).value == SignedDigits(sg, ds)
  {
    var t;
    w1, t, w2 := TrimSplit(s);
    assert SignedValue(t).Some? && ParseInt32(s).value == SignedValue(t).value;
    sg, ds := SignSplit(t);
    Regroup(w1, sg, ds, w2);
  }

  /** Concatenation regroups: the middle two parts may be joined first. */
  lemma Regroup(a: string, b: string, c: string, d: string)
    ensures a + (b + c) + d == a + b + c + d
  {
    assert a + (b + c) == a + b + c;
  }

  /** Text with a value is its sign (possibly empty) followed by its digits. */
  lemma SignSplit(t: string) returns (sg: string, ds: string)
    requires SignedValue(t).Some?
    ensures t == sg + ds && (sg == "" || sg == "+" || sg == "-") && ds != [] && AllDigits(ds)
    ensures SignedValue(t) == Some(SignedDigits(sg, ds))
  {
    if t[0] == '-' || t[0] == '+' {
      sg, ds := t[..1], t[1..];
    } else {
      sg, ds := [], t;
    }
    assert t == sg + ds;
  }

  /** A digit string parses to the number it denotes, exactly when that fits an `int`. */
  lemma ParseInt32Digits(digits: string)
    requires digits != [] && AllDigits(digits)
    ensures DigitsValue(digits) <= MaxInt32 ==> ParseInt32(digits) == Some(DigitsValue(digits))
    ensures DigitsValue(digits) > MaxInt32 ==> ParseInt32(digits) == None
  {
    assert IsDigit(digits[0]) && IsDigit(digits[|digits| - 1]);
    assert Trim(digits) == digits;
  }

  /** Digits after a sign: the number they denote, negated after a '-', when it fits an `int`. */
  lemma ParseInt32Signed(sign: char, digits: string)
    requires sign == '-' || sign == '+'
    requires digits != [] && AllDigits(digits)
    ensures var v := if sign == '-' then -(DigitsValue(digits) as int) else DigitsValue(digits);
      var r := ParseInt32([sign] + digits);
      (r.Some? <==> MinInt32 <= v <= MaxInt32) && (r.Some? ==> r.value == v)
  {
    var t := [sign] + digits;
    assert t[1..] == digits;
    assert IsDigit(t[|t| - 1]);
    assert t[0] == sign;
    var v := if sign == '-' then -(DigitsValue(digits) as int) else DigitsValue(digits);
    assert SignedValue(t) == Some(v);
    assert Trim(t) == t;
    assert SignedValue(Trim(t)) == Some(v);
    assert ParseInt32(t).Some? ==> MinInt32 <= v <= MaxInt32;
    assert MinInt32 <= v <= MaxInt32 ==> ParseInt32(t).Some?;
  }

  /** Text holding anything but white space, digits and signs parses to nothing. */
  lemma ParseInt32RejectsOther(s: string, i: int)
    requires 0 <= i < |s| && !IsWhite(s[i]) && !IsDigit(s[i]) && s[i] != '-' && s[i] != '+'
    ensures ParseInt32(s) == None
  {
    var t := Trim(s);
    TrimKeepsNonWhite(s, i);
    var j :| 0 <= j < |t| && t[j] == s[i];
    if t[0] == '-' || t[0] == '+' {
      assert t[1..][j - 1] == s[i];
    }
  }

  /** Nothing but white space parses to nothing. */
  lemma ParseInt32RejectsBlank(s: string)
    requires forall i :: 0 <= i < |s| ==> IsWhite(s[i])
    ensures ParseInt32(s) == None
  {
    var u := TrimStart(s);
  }

  /** `bool.TryParse`: "true" or "false" in any case, surrounded by white space; `None` otherwise. */
  function ParseBool(s: string): (r: Option<bool>)
    ensures r == Some(true) <==> EqualsIgnoreCase(Trim(s), "True")
    ensures r == Some(false) <==> EqualsIgnoreCase(Trim(s), "False")
    ensures r == None <==> !EqualsIgnoreCase(Trim(s), "True") && !EqualsIgnoreCase(Trim(s), "False")
  {
    var t := Trim(s);
    if EqualsIgnoreCase(t, "True") then Some(true)
    else if EqualsIgnoreCase(t, "False") then Some(false)
    else None
  }

  /** The outcome of ParseArgumentsToConfig: a configuration, or the program exits or throws. */
  datatype ParseOutcome =
    | Parsed(config: Config)
    /** An argument without '=': the program exits with code 1. */
    | InvalidArgument(arg: string)
    /** `Path.GetFullPath` threw on a given directory path. */
    | PathThrew(path: string)

  /** A directory path given under `key` that `Path.GetFullPath` resolves, if given at all. */
  predicate Resolves(fullPath: FullPath, arguments: map<string, string>, key: string) {
    key in arguments ==> fullPath(arguments[key]).Some?
  }

  /**
   * The path that makes the settings throw: the first of --source, --replica and --logs, in
   * that order, that is given but has no full form.
   */
  function FirstUnresolved(fullPath: FullPath, arguments: map<string, string>): (p: string)
    requires !(Resolves(fullPath, arguments, "--source") && Resolves(fullPath, arguments, "--replica") && Resolves(fullPath, arguments, "--logs"))
    ensures fullPath(p).None?
    ensures p in arguments.Values
  {
    if !Resolves(fullPath, arguments, "--source") then arguments["--source"]
    else if !Resolves(fullPath, arguments, "--replica") then arguments["--replica"]
    else arguments["--logs"]
  }

  /** The path setting for `key`: the full form of the given path, or empty when not given. */
  function PathSetting(fullPath: FullPath, arguments: map<string, string>, key: string): string
    requires Resolves(fullPath, arguments, key)
  {
    if key in arguments then fullPath(arguments[key]).value else ""
  }

  /**
   * ParseArgumentsToConfig: stops at the first argument without '='; otherwise every
   * argument is split at its first '=' into a lower-cased key and a value, later duplicates
   * winning, and the five settings are read from the keys `--source`, `--replica`, `--logs`,
   * `--interval` and `--archive`: paths in their full form, an interval that does not parse
   * as 0 and an archive switch that does not parse as false; settings not given stay unset.
   */
  method ParseArgumentsToConfig(fullPath: FullPath, args: seq<string>) returns (r: ParseOutcome)
    ensures r.InvalidArgument? <==> exists i :: 0 <= i < |args| && '=' !in args[i]
    ensures r.InvalidArgument? ==> exists i :: 0 <= i < |args| && args[i] == r.arg && '=' !in args[i] &&
                                      forall j :: 0 <= j < i ==> '=' in args[j]
    ensures var a := Arguments(args);
      r.PathThrew? <==>
        (!r.InvalidArgument? &&
         !(Resolves(fullPath, a, "--source") && Resolves(fullPath, a, "--replica") && Resolves(fullPath, a, "--logs")))
    ensures r.PathThrew? ==> fullPath(r.path).None? && r.path == FirstUnresolved(fullPath, Arguments(args))
    ensures var a := Arguments(args);
      r.Parsed? ==>
        && Resolves(fullPath, a, "--source") && Resolves(fullPath, a, "--replica") && Resolves(fullPath, a, "--logs")
        && r.config.sourceDirectoryPath == PathSetting(fullPath, a, "--source")
        && r.config.replicaDirectoryPath == PathSetting(fullPath, a, "--replica")
        && r.config.logsDirectory == PathSetting(fullPath, a, "--logs")
        && r.config.syncIntervalSeconds == (if "--interval" in a then Some(ParseInt32(a["--interval"]).GetOr(0)) else None)
        && r.config.archiveEnabled == (if "--archive" in a then Some(ParseBool(a["--archive"]).GetOr(false)) else None)
  {
    var arguments, invalid := CollectArguments(args);
    if invalid.Some? {
      return InvalidArgument(invalid.value);
    }
    r := ReadSettings(fullPath, arguments);
  }

  /**
   * The first half of ParseArgumentsToConfig: each argument split at its first '=' into the
   * dictionary, its key lower-cased, a later key replacing an earlier one; the first argument
   * without '=' ends the program.
   */
  method CollectArguments(args: seq<string>) returns (arguments: map<string, string>, invalid: Option<string>)
    ensures invalid.None? <==> forall i :: 0 <= i < |args| ==> '=' in args[i]
    ensures invalid.Some? ==> exists i :: 0 <= i < |args| && args[i] == invalid.value && '=' !in args[i] &&
                                forall j :: 0 <= j < i ==> '=' in args[j]
    ensures invalid.None? ==> arguments == Arguments(args)
  {
    arguments, invalid := map[], None;
    var i := 0;
    while i < |args|
      invariant 0 <= i <= |args|
      invariant arguments == Arguments(args[..i])
      invariant forall j :: 0 <= j < i ==> '=' in args[j]
    {
      var parts := SplitAtFirst(args[i], '=');
      if parts.None? {
        return arguments, Some(args[i]);
      }
      assert args[..i + 1][..i] == args[..i];
      arguments := arguments[ToLower(parts.value.0) := parts.value.1];
      i := i + 1;
    }
    assert args[..|args|] == args;
  }

  /**
   * The second half of ParseArgumentsToConfig: the five settings read from the dictionary,
   * paths in their full form (a path `Path.GetFullPath` rejects throws), an interval that
   * does not parse as 0 and an archive switch that does not parse as false; settings not
   * given stay unset.
   */
  method ReadSettings(fullPath: FullPath, arguments: map<string, string>) returns (r: ParseOutcome)
    ensures !r.InvalidArgument?
    ensures r.PathThrew? <==>
              !(Resolves(fullPath, arguments, "--source") && Resolves(fullPath, arguments, "--replica") && Resolves(fullPath, arguments, "--logs"))
    ensures r.PathThrew? ==>
              && fullPath(r.path).None?
              && r.path == FirstUnresolved(fullPath, arguments)
    ensures r.Parsed? ==>
              && r.config.sourceDirectoryPath == PathSetting(fullPath, arguments, "--source")
              && r.config.replicaDirectoryPath == PathSetting(fullPath, arguments, "--replica")
              && r.config.logsDirectory == PathSetting(fullPath, arguments, "--logs")
              && r.config.syncIntervalSeconds == (if "--interval" in arguments then Some(ParseInt32(arguments["--interval"]).GetOr(0)) else None)
              && r.config.archiveEnabled == (if "--archive" in arguments then Some(ParseBool(arguments["--archive"]).GetOr(false)) else None)
  {
    var config := GetEmptyConfig();
    if "--source" in arguments {
      var full := fullPath(arguments["--source"]);
      if full.None? {
        return PathThrew(arguments["--source"]);
      }
      config := config.(sourceDirectoryPath := full.value);
    }
    if "--replica" in arguments {
      var full := fullPath(arguments["--replica"]);
      if full.None? {
        return PathThrew(arguments["--replica"]);
      }
      config := config.(replicaDirectoryPath := full.value);
    }
    if "--logs" in arguments {
      var full := fullPath(arguments["--logs"]);
      if full.None? {
        return PathThrew(arguments["--logs"]);
      }
      config := config.(logsDirectory := full.value);
    }
    if "--interval" in arguments {
      var interval := ParseInt32(arguments["--interval"]).GetOr(0);
      config := config.(syncIntervalSeconds := Some(interval));
    }
    if "--archive" in arguments {
      var archive := ParseBool(arguments["--archive"]).GetOr(false);
      config := config.(archiveEnabled := Some(archive));
    }
    return Parsed(config);
  }
}
