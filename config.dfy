/** Run configuration (internal/config/config.go): the defaults, the values
    the command line overrides, and the choice of run mode. */
module Config {
  import opened Common

  const ModeQuery: string := "query"
  const ModeSet: string := "set"
  const ModeMonitor: string := "monitor"

  const DefaultMinSpeed: int := 200000       // Mbps, i.e. 200G
  const DefaultMonitorInterval: int := 300   // seconds
  const DefaultMaxWorkers: int := 5
  const DefaultLogFile: string := "/var/log/optimize-hpc-nic/optimize-hpc-nic.log"
  const DefaultLogMaxSize: int := 50         // MB
  const DefaultLogMaxBackups: int := 3
  const DefaultLogMaxAge: int := 28          // days

  /** The command line as the flag package hands it over: the three mode
      switches, and each overridable setting when it was given. */
  datatype Flags = Flags(
    setMode: bool, monitorMode: bool, queryMode: bool,
    interval: Option<int>, minSpeed: Option<int>, workers: Option<int>,
    verbose: Option<bool>, logFile: Option<string>)

  const NoFlags: Flags := Flags(false, false, false, None, None, None, None, None)

  /** The fields of a configuration, as a value. */
  datatype Settings = Settings(
    mode: string, monitorInterval: int, minSpeed: int, maxWorkers: int, verbose: bool,
    logFile: string, logMaxSize: int, logMaxBackups: int, logMaxAge: int)

  /** config.go's Config, filled in place by ParseFlags. */
  class Config {
    var mode: string
    var monitorInterval: int
    var minSpeed: int
    var maxWorkers: int
    var verbose: bool
    var logFile: string
    var logMaxSize: int
    var logMaxBackups: int
    var logMaxAge: int

    /** The literal ParseFlags starts from. */
    constructor ()
      ensures View() == Settings(ModeQuery, DefaultMonitorInterval, DefaultMinSpeed, DefaultMaxWorkers, false,
                                 DefaultLogFile, DefaultLogMaxSize, DefaultLogMaxBackups, DefaultLogMaxAge)
    {
      mode := ModeQuery;
      minSpeed := DefaultMinSpeed;
      monitorInterval := DefaultMonitorInterval;
      maxWorkers := DefaultMaxWorkers;
      verbose := false;
      logFile := DefaultLogFile;
      logMaxSize := DefaultLogMaxSize;
      logMaxBackups := DefaultLogMaxBackups;
      logMaxAge := DefaultLogMaxAge;
    }

    function View(): Settings
      reads this
    {
      Settings(mode, monitorInterval, minSpeed, maxWorkers, verbose, logFile, logMaxSize, logMaxBackups, logMaxAge)
    }
  }

  /** The mode chosen from the three switches, where `previous` is the mode
      the configuration held before: `-m` beats `-s`, and query is chosen
      exactly when neither is given, so the last fallback never applies. */
  function SelectMode(monitor: bool, setting: bool, query: bool, previous: string): (mode: string)
    ensures mode == ModeMonitor <==> monitor
    ensures mode == ModeSet <==> !monitor && setting
    ensures mode == ModeQuery <==> !monitor && !setting
  {
    if monitor then ModeMonitor
    else if setting then ModeSet
    else if query || (!monitor && !setting) then ModeQuery
    else previous
  }

  /** `-q` never changes the outcome, and the mode is always one of the
      three named modes, whatever the configuration held before. */
  lemma QueryFlagIrrelevant(monitor: bool, setting: bool, previous: string, other: string)
    ensures SelectMode(monitor, setting, true, previous) == SelectMode(monitor, setting, false, other)
    ensures SelectMode(monitor, setting, false, previous) in {ModeQuery, ModeSet, ModeMonitor}
  {
  }

  /** A setting given on the command line, or its default. */
  function OrDefault<T>(given: Option<T>, default: T): T {
    if given.Some? then given.value else default
  }

  /** The configuration ParseFlags returns for a command line. */
  function Configured(flags: Flags): Settings {
    Settings(SelectMode(flags.monitorMode, flags.setMode, flags.queryMode, ModeQuery),
             OrDefault(flags.interval, DefaultMonitorInterval),
             OrDefault(flags.minSpeed, DefaultMinSpeed),
             OrDefault(flags.workers, DefaultMaxWorkers),
             OrDefault(flags.verbose, false),
             OrDefault(flags.logFile, DefaultLogFile),
             DefaultLogMaxSize, DefaultLogMaxBackups, DefaultLogMaxAge)
  }

  /** With no flags the program queries, with a 200000 Mbps threshold, a
      300 s monitor interval, five workers and the default log settings;
      the log rotation limits are never taken from the command line. */
  lemma DefaultsWithoutFlags(flags: Flags)
    ensures Configured(NoFlags) == Settings(ModeQuery, 300, 200000, 5, false, DefaultLogFile, 50, 3, 28)
    ensures Configured(flags).logMaxSize == 50 && Configured(flags).logMaxBackups == 3
      && Configured(flags).logMaxAge == 28
  {
  }

  /** flag.Parse: each setting given on the command line overwrites the
      field it is bound to; the others keep their value. */
  method ApplyFlags(cfg: Config, flags: Flags)
    modifies cfg
    ensures cfg.View() == old(cfg.View()).(
      monitorInterval := OrDefault(flags.interval, old(cfg.monitorInterval)),
      minSpeed := OrDefault(flags.minSpeed, old(cfg.minSpeed)),
      maxWorkers := OrDefault(flags.workers, old(cfg.maxWorkers)),
      verbose := OrDefault(flags.verbose, old(cfg.verbose)),
      logFile := OrDefault(flags.logFile, old(cfg.logFile)))
  {
    if flags.interval.Some? {
      cfg.monitorInterval := flags.interval.value;
    }
    if flags.minSpeed.Some? {
      cfg.minSpeed := flags.minSpeed.value;
    }
    if flags.workers.Some? {
      cfg.maxWorkers := flags.workers.value;
    }
    if flags.verbose.Some? {
      cfg.verbose := flags.verbose.value;
    }
    if flags.logFile.Some? {
      cfg.logFile := flags.logFile.value;
    }
  }

  /** config.go's ParseFlags: the defaults, then the flag values written
      over them, then the mode. */
  method ParseFlags(flags: Flags) returns (cfg: Config)
    ensures fresh(cfg)
    ensures cfg.View() == Configured(flags)
  {
    cfg := new Config();
    ApplyFlags(cfg, flags);
    var setMode, monitorMode, queryMode := flags.setMode, flags.monitorMode, flags.queryMode;
    if monitorMode {
      cfg.mode := ModeMonitor;
    } else if setMode {
      cfg.mode := ModeSet;
    } else if queryMode || (!monitorMode && !setMode) {
      cfg.mode := ModeQuery;
    }
  }
}
