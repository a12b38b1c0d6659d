/** The bot base class's configuration and notification logic: `Log` reads
    its settings with defaults and builds its logger once; `Notify` sends a
    status message to Discord when a webhook is configured and to LINE
    otherwise. The config is the parsed JSON object, its values strings;
    a post is the request that would be sent. */
module Notify {
  import opened Wrappers

  /** The settings `Log` reads, each with its default for a missing key. */
  datatype LogSettings = LogSettings(exchangeName: string, botName: string, logLevel: string, logDir: string)

  function Setting(config: map<string, string>, key: string, default: string): string
  {
    if key in config then config[key] else default
  }

  function ReadLogSettings(config: map<string, string>): LogSettings
  {
    LogSettings(
      Setting(config, "exchange_name", "Exchange"),
      Setting(config, "bot_name", "Bot"),
      Setting(config, "log_level", "DEBUG"),
      Setting(config, "log_dir", "log"))
  }

  /** An empty config gives every default; each configured key replaces its
      own default and nothing else. */
  lemma LogSettingsDefaults(config: map<string, string>)
    ensures ReadLogSettings(map[]) == LogSettings("Exchange", "Bot", "DEBUG", "log")
    ensures "exchange_name" in config ==> ReadLogSettings(config).exchangeName == config["exchange_name"]
    ensures "log_dir" !in config ==> ReadLogSettings(config).logDir == "log"
    ensures var s := ReadLogSettings(config);
            ReadLogSettings(map k | k in config && k != "log_level" :: config[k]) == s.(logLevel := "DEBUG")
  {
  }

  /** A logging handler: the console one, or a rotating file. */
  datatype Handler = Stream(level: string) | RotatingFile(path: string, maxBytes: int, backupCount: int, level: string)

  datatype Logger = Logger(name: string, level: string, handlers: seq<Handler>)

  /** `os.path.join(a, b)` for two components. */
  function PathJoin(a: string, b: string): string
  {
    if |b| > 0 && b[0] == '/' then b
    else if |a| == 0 || a[|a| - 1] == '/' then a + b
    else a + "/" + b
  }

  /** Two megabytes, the size at which the log file rotates. */
  const RotateBytes := 1024 * 1024 * 2

  /** `logging`'s process-wide registry of loggers by name. */
  type Registry = map<string, Logger>

  /** `logging.getLogger(name)`: the registered logger, or a fresh one with
      no level and no handlers. */
  function GetLogger(registry: Registry, name: string): (l: Logger)
    ensures name in registry ==> l == registry[name]
    ensures name !in registry ==> l == Logger(name, "NOTSET", [])
  {
    if name in registry then registry[name] else Logger(name, "NOTSET", [])
  }

  /** The handlers one set-up adds: a console handler and, when the log
      directory is non-empty, a rotating file handler for `{name}.log` in it,
      all at the configured level. */
  function NewHandlers(name: string, s: LogSettings): (hs: seq<Handler>)
    ensures |hs| == (if s.logDir == "" then 1 else 2)
    ensures hs[0] == Stream(s.logLevel)
    ensures s.logDir != "" ==> hs[1] == RotatingFile(PathJoin(s.logDir, name + ".log"), 2097152, 3, s.logLevel)
  {
    [Stream(s.logLevel)] +
    (if s.logDir != "" then [RotatingFile(PathJoin(s.logDir, name + ".log"), RotateBytes, 3, s.logLevel)] else [])
  }

  /** `_initialize_logger` against the registry: a bot that already has a
      logger keeps it and the registry is untouched; otherwise the registry's
      `{exchange}_{bot}` logger (fetched or created) gets the configured level
      and the new handlers APPENDED to the ones it already had, and the
      registry holds the result. No other logger changes. */
  function InitializeLogger(current: Option<Logger>, registry: Registry, s: LogSettings): (r: (Logger, Registry))
    ensures current.Some? ==> r == (current.value, registry)
    ensures current.None? ==> && r.0.name == s.exchangeName + "_" + s.botName
                              && r.0.level == s.logLevel
                              && r.0.handlers == GetLogger(registry, r.0.name).handlers + NewHandlers(r.0.name, s)
    ensures current.None? ==> r.1.Keys == registry.Keys + {r.0.name} && r.1[r.0.name] == r.0
    ensures forall k :: k in registry && (current.Some? || k != s.exchangeName + "_" + s.botName) ==>
              k in r.1 && r.1[k] == registry[k]
  {
    match current
    case Some(l) => (l, registry)
    case None =>
      var name := s.exchangeName + "_" + s.botName;
      var l := GetLogger(registry, name);
      var l' := Logger(name, s.logLevel, l.handlers + NewHandlers(name, s));
      (l', registry[name := l'])
  }

  /** The first set-up under a name gives exactly the new handlers. */
  lemma FirstLogger(registry: Registry, s: LogSettings)
    requires s.exchangeName + "_" + s.botName !in registry
    ensures var (l, _) := InitializeLogger(None, registry, s);
            l.handlers == NewHandlers(l.name, s)
  {
  }

  /** Setting the same bot's logger up twice is setting it up once. */
  lemma InitializeLoggerIdempotent(current: Option<Logger>, registry: Registry, s: LogSettings, s2: LogSettings)
    ensures var (l, reg) := InitializeLogger(current, registry, s);
            InitializeLogger(Some(l), reg, s2) == (l, reg)
  {
  }

  /** A second bot with the same exchange and bot names gets the registry's
      logger again and adds its handlers a second time, so every message is
      written twice by each kind of handler. */
  lemma SecondBotDuplicatesHandlers(registry: Registry, s: LogSettings)
    requires s.exchangeName + "_" + s.botName !in registry
    ensures var (l1, reg1) := InitializeLogger(None, registry, s);
            var (l2, _) := InitializeLogger(None, reg1, s);
            l2.handlers == l1.handlers + l1.handlers
  {
  }

  /** What `Notify` adds to `Log`: the LINE token (required) and the
      Discord webhook (optional). */
  datatype Notifier = Notifier(lineToken: string, discordWebhook: Option<string>)

  /** The `Notify` constructor: a missing `line_notify_token` raises
      `KeyError`; a missing `discordWebhook` means none. */
  function NewNotifier(config: map<string, string>): (r: Result<Notifier>)
    ensures r.Raised? <==> "line_notify_token" !in config
    ensures r.Ok? ==> r.value.lineToken == config["line_notify_token"]
    ensures r.Ok? ==> (r.value.discordWebhook.Some? <==> "discordWebhook" in config)
  {
    if "line_notify_token" !in config then Raised("KeyError: 'line_notify_token'")
    else Ok(Notifier(config["line_notify_token"],
                     if "discordWebhook" in config then Some(config["discordWebhook"]) else None))
  }

  const LineNotifyApi := "https://notify-api.line.me/api/notify"

  /** A POST request: the URL, the form data and the headers. */
  datatype Post = Post(url: string, data: map<string, string>, headers: map<string, string>)

  /** `_discordNotify`'s payload: the message padded with one space on each
      side. */
  function DiscordContent(message: string): (content: string)
    ensures |content| == |message| + 2
    ensures content[1..|content| - 1] == message
    ensures content[0] == ' ' && content[|content| - 1] == ' '
  {
    " " + message + " "
  }

  /** `statusNotify`: to the Discord webhook when one is configured, with the
      padded content; to LINE otherwise, with the bare message and the
      bearer token. */
  function StatusNotify(n: Notifier, message: string): (p: Post)
    ensures n.discordWebhook.Some? ==> p.url == n.discordWebhook.value && p.headers == map[]
    ensures n.discordWebhook.Some? ==> p.data.Keys == {"content"} && |p.data["content"]| == |message| + 2
    ensures n.discordWebhook.Some? ==> p.data["content"][1..|message| + 1] == message
    ensures n.discordWebhook.None? ==> p.url == LineNotifyApi && p.data == map["message" := message]
    ensures n.discordWebhook.None? ==> p.headers == map["Authorization" := "Bearer " + n.lineToken]
  {
    match n.discordWebhook
    case Some(hook) => Post(hook, map["content" := DiscordContent(message)], map[])
    case None => Post(LineNotifyApi, map["message" := message], map["Authorization" := "Bearer " + n.lineToken])
  }
}
