/** config.env as the panel installer writes and reads it
    (pkg/panel/install.go, pkg/panel/templates.go). */
module PanelConfig {
  import opened Text
  import opened EnvFile
  import opened EnvMap

  const EncryptionKey: string := "ENCRYPTION_KEY"
  const AuthSecret: string := "AUTH_SECRET"
  const DefaultGRPCPort: string := "31718"

  datatype Config = Config(
    dataDirectory: string,
    httpHost: string, httpPort: string,
    grpcEnabled: bool, grpcPort: string,
    databaseDriver: string, databaseURL: string,
    encryptionKey: string, authSecret: string, authService: string,
    cacheDriver: string,
    filesDriver: string, filesLocalBasePath: string,
    legacyPath: string,
    globalAPIURL: string)

  function OrDefault(value: string, default: string): string {
    if value == "" then default else value
  }

  function ApplyConfigDefaults(c: Config): Config {
    c.(httpHost := OrDefault(c.httpHost, "0.0.0.0"),
       httpPort := OrDefault(c.httpPort, "8025"),
       authService := OrDefault(c.authService, "paseto"),
       cacheDriver := OrDefault(c.cacheDriver, "inmemory"),
       filesDriver := OrDefault(c.filesDriver, "local"),
       filesLocalBasePath := OrDefault(c.filesLocalBasePath, c.dataDirectory + "/files"),
       globalAPIURL := OrDefault(c.globalAPIURL, "https://api.gameap.com"),
       grpcPort := if c.grpcEnabled then OrDefault(c.grpcPort, DefaultGRPCPort) else c.grpcPort)
  }

  // ----------------------------------------------------------- rendering

  datatype TemplateLine = Blank | Comment(text: string) | Variable(name: string, value: string)
  {
    function Text(): string {
      match this
      case Blank => ""
      case Comment(text) => "# " + text
      case Variable(name, value) => Assignment(name, value)
    }
  }

  /** The config.env template, line by line. */
  function Template(c: Config): seq<TemplateLine> {
    [Comment("Server"),
     Variable("HTTP_HOST", c.httpHost),
     Variable("HTTP_PORT", c.httpPort),
     Blank]
    + (if c.grpcEnabled then
         [Comment("gRPC"),
          Variable("GRPC_ENABLED", "true"),
          Variable("GRPC_PORT", c.grpcPort),
          Blank]
       else [])
    + [Comment("Database"),
       Variable("DATABASE_DRIVER", c.databaseDriver),
       Variable("DATABASE_URL", c.databaseURL),
       Blank,
       Comment("Security"),
       Variable(EncryptionKey, c.encryptionKey),
       Variable(AuthSecret, c.authSecret),
       Variable("AUTH_SERVICE", c.authService),
       Blank,
       Comment("Cache"),
       Variable("CACHE_DRIVER", c.cacheDriver),
       Blank,
       Comment("File Storage"),
       Variable("FILES_DRIVER", c.filesDriver),
       Variable("FILES_LOCAL_BASE_PATH", c.filesLocalBasePath),
       Blank,
       Comment("Legacy"),
       Variable("LEGACY_PATH", c.legacyPath),
       Blank,
       Comment("Global API"),
       Variable("GLOBAL_API_URL", c.globalAPIURL)]
  }

  function Lines(template: seq<TemplateLine>): (lines: seq<string>)
    ensures |lines| == |template|
    ensures forall i | 0 <= i < |template| :: lines[i] == template[i].Text()
  {
    seq(|template|, i requires 0 <= i < |template| => template[i].Text())
  }

  function RenderConfigEnv(c: Config): string {
    Terminated(Lines(Template(c)))
  }

  // ------------------------------------------------------------- parsing

  method ParseConfigEnvValues(data: string) returns (result: map<string, string>)
    ensures Means(result, Split(data, LF))
  {
    var parts := Split(data, LF);
    result := map[];
    for i := 0 to |parts|
      invariant Means(result, parts[..i])
    {
      assert Entries(parts[..i + 1])[..i] == Entries(parts[..i]);
      var entry := LineEntry(parts[i]);
      if entry.Some? {
        result := result[entry.value.key := entry.value.value];
      }
    }
    assert parts[..|parts|] == parts;
  }

  /** What the panel reads for a key from the text of config.env. */
  function PanelValue(content: string, key: string): Option<string> {
    Lookup(Split(content, LF), key)
  }

  // ------------------------------------------- parsing undoes rendering

  predicate NewlineFree(c: Config) {
    && LF !in c.dataDirectory
    && LF !in c.httpHost && LF !in c.httpPort && LF !in c.grpcPort
    && LF !in c.databaseDriver && LF !in c.databaseURL
    && LF !in c.encryptionKey && LF !in c.authSecret && LF !in c.authService
    && LF !in c.cacheDriver && LF !in c.filesDriver && LF !in c.filesLocalBasePath
    && LF !in c.legacyPath && LF !in c.globalAPIURL
  }

  /** The name of a template variable, and its value as a parser sees it. */
  function TemplateEntry(line: TemplateLine): Option<Entry> {
    match line
    case Variable(name, value) => Some(Entry(name, TrimRight(value)))
    case _ => None
  }

  lemma CommentEntry(text: string)
    requires Trimmed(text) && text != ""
    ensures LineEntry("# " + text) == None
  {
    TrimOfTrimmed("# " + text);
  }

  lemma ServerNamesOk()
    ensures KeyOk("HTTP_HOST") && KeyOk("HTTP_PORT") && KeyOk("GRPC_ENABLED") && KeyOk("GRPC_PORT")
  {
  }

  lemma DatabaseNamesOk()
    ensures KeyOk("DATABASE_DRIVER") && KeyOk("DATABASE_URL")
  {
  }

  lemma SecurityNamesOk()
    ensures KeyOk(EncryptionKey) && KeyOk(AuthSecret) && KeyOk("AUTH_SERVICE")
  {
  }

  lemma StorageNamesOk()
    ensures KeyOk("CACHE_DRIVER") && KeyOk("FILES_DRIVER") && KeyOk("FILES_LOCAL_BASE_PATH")
  {
  }

  lemma OtherNamesOk()
    ensures KeyOk("LEGACY_PATH") && KeyOk("GLOBAL_API_URL")
  {
  }

  predicate LineOk(line: TemplateLine) {
    match line
    case Blank => true
    case Comment(text) => Trimmed(text) && text != "" && LF !in text
    case Variable(name, _) => KeyOk(name)
  }

  lemma CommentsOk()
    ensures LineOk(Comment("Server")) && LineOk(Comment("gRPC")) && LineOk(Comment("Database"))
    ensures LineOk(Comment("Security")) && LineOk(Comment("Cache"))
  {
  }

  lemma OtherCommentsOk()
    ensures LineOk(Comment("File Storage")) && LineOk(Comment("Legacy")) && LineOk(Comment("Global API"))
  {
  }

  lemma TemplateOk(c: Config, i: nat)
    requires i < |Template(c)|
    ensures LineOk(Template(c)[i])
  {
    ServerNamesOk();
    DatabaseNamesOk();
    SecurityNamesOk();
    StorageNamesOk();
    OtherNamesOk();
    CommentsOk();
    OtherCommentsOk();
  }

  lemma TemplateValues(c: Config)
    requires NewlineFree(c)
    ensures forall i | 0 <= i < |Template(c)| && Template(c)[i].Variable? :: LF !in Template(c)[i].value
  {
  }

  predicate IsVariable(line: TemplateLine, key: string) {
    line.Variable? && line.name == key
  }

  lemma TextEntry(line: TemplateLine)
    requires LineOk(line)
    ensures LineEntry(line.Text()) == TemplateEntry(line)
  {
    match line
    case Blank => BlankEntry("");
    case Comment(text) => CommentEntry(text);
    case Variable(name, value) => AssignmentEntry(name, value);
  }

  lemma TextWithoutLF(line: TemplateLine)
    requires LineOk(line) && (line.Variable? ==> LF !in line.value)
    ensures LF !in line.Text()
  {
  }

  function TemplateEntries(template: seq<TemplateLine>): (entries: seq<Option<Entry>>)
    ensures |entries| == |template|
    ensures forall i | 0 <= i < |template| :: entries[i] == TemplateEntry(template[i])
  {
    seq(|template|, i requires 0 <= i < |template| => TemplateEntry(template[i]))
  }

  /** A parser sees the template's entries and one empty line. */
  lemma RenderedEntries(c: Config)
    requires NewlineFree(c)
    ensures Entries(Split(RenderConfigEnv(c), LF)) == TemplateEntries(Template(c)) + [None]
  {
    TemplateValues(c);
    forall i | 0 <= i < |Template(c)| ensures LineOk(Template(c)[i]) {
      TemplateOk(c, i);
    }
    EntriesOfLines(Template(c));
  }

  lemma EntriesOfLines(template: seq<TemplateLine>)
    requires forall i | 0 <= i < |template| :: LineOk(template[i])
    requires forall i | 0 <= i < |template| && template[i].Variable? :: LF !in template[i].value
    ensures Entries(Split(Terminated(Lines(template)), LF)) == TemplateEntries(template) + [None]
  {
    var lines := Lines(template);
    forall i | 0 <= i < |lines|
      ensures LF !in lines[i] && LineEntry(lines[i]) == TemplateEntry(template[i])
    {
      TextEntry(template[i]);
      TextWithoutLF(template[i]);
    }
    SplitTerminated(lines);
    BlankEntry("");
  }

  lemma {:induction false} FindOnly(entries: seq<Option<Entry>>, key: string, i: nat)
    requires i < |entries| && Assigns(entries[i], key)
    requires forall j | i < j < |entries| :: !Assigns(entries[j], key)
    ensures Find(entries, key) == Some(entries[i].value.value)
  {
    if i < |entries| - 1 {
      FindOnly(entries[..|entries| - 1], key, i);
    }
  }

  /** i is the last line of the template that sets key. */
  ghost predicate LastSetAt(template: seq<TemplateLine>, key: string, i: nat) {
    && i < |template|
    && IsVariable(template[i], key)
    && forall j | i < j < |template| :: !IsVariable(template[j], key)
  }

  predicate Sets(template: seq<TemplateLine>, key: string) {
    exists i | 0 <= i < |template| :: IsVariable(template[i], key)
  }

  lemma FindInTemplate(template: seq<TemplateLine>, key: string)
    ensures var found := Find(TemplateEntries(template) + [None], key);
      && (found.Some? <==> Sets(template, key))
      && (forall i: nat | LastSetAt(template, key, i) :: found == Some(TrimRight(template[i].value)))
  {
    var entries := TemplateEntries(template) + [None];
    FindAssigned(entries, key);
    assert forall i | 0 <= i < |template| :: Assigns(entries[i], key) <==> IsVariable(template[i], key);
    forall i: nat | LastSetAt(template, key, i)
      ensures Find(entries, key) == Some(TrimRight(template[i].value))
    {
      FindOnly(entries, key, i);
    }
  }

  /** Parsing the rendered template gives each variable the value it was
      rendered with, less trailing spaces, and no other key. */
  lemma ParseRendered(c: Config, key: string)
    requires NewlineFree(c)
    ensures PanelValue(RenderConfigEnv(c), key).Some? <==> Sets(Template(c), key)
    ensures forall i: nat | LastSetAt(Template(c), key, i) ::
      PanelValue(RenderConfigEnv(c), key) == Some(TrimRight(Template(c)[i].value))
  {
    RenderedEntries(c);
    FindInTemplate(Template(c), key);
  }

  /** Line i is the last one that sets key, and it gives it this value. */
  ghost predicate Gives(c: Config, i: nat, key: string, value: string) {
    LastSetAt(Template(c), key, i) && Template(c)[i].value == value
  }

  lemma Rendered(c: Config, i: nat, key: string, value: string)
    requires NewlineFree(c) && Gives(c, i, key, value)
    ensures PanelValue(RenderConfigEnv(c), key) == Some(TrimRight(value))
  {
    ParseRendered(c, key);
  }

  /** The lines the gRPC block takes before everything below it. */
  function Block(c: Config): nat {
    if c.grpcEnabled then 4 else 0
  }

  lemma HostLine(c: Config)
    ensures Gives(c, 1, "HTTP_HOST", c.httpHost)
  {
  }

  lemma PortLine(c: Config)
    ensures Gives(c, 2, "HTTP_PORT", c.httpPort)
  {
  }

  lemma DriverLine(c: Config)
    ensures Gives(c, 5 + Block(c), "DATABASE_DRIVER", c.databaseDriver)
  {
  }

  lemma URLLine(c: Config)
    ensures Gives(c, 6 + Block(c), "DATABASE_URL", c.databaseURL)
  {
  }

  lemma AuthLine(c: Config)
    ensures Gives(c, 11 + Block(c), "AUTH_SERVICE", c.authService)
  {
  }

  lemma CacheLine(c: Config)
    ensures Gives(c, 14 + Block(c), "CACHE_DRIVER", c.cacheDriver)
  {
  }

  lemma FilesLine(c: Config)
    ensures Gives(c, 17 + Block(c), "FILES_DRIVER", c.filesDriver)
  {
  }

  lemma BasePathLine(c: Config)
    ensures Gives(c, 18 + Block(c), "FILES_LOCAL_BASE_PATH", c.filesLocalBasePath)
  {
  }

  lemma LegacyLine(c: Config)
    ensures Gives(c, 21 + Block(c), "LEGACY_PATH", c.legacyPath)
  {
  }

  lemma GlobalLine(c: Config)
    ensures Gives(c, 24 + Block(c), "GLOBAL_API_URL", c.globalAPIURL)
  {
  }

  lemma GRPCLines(c: Config)
    ensures c.grpcEnabled ==> Gives(c, 5, "GRPC_ENABLED", "true") && Gives(c, 6, "GRPC_PORT", c.grpcPort)
    ensures !c.grpcEnabled ==> !Sets(Template(c), "GRPC_ENABLED") && !Sets(Template(c), "GRPC_PORT")
  {
  }

  /** What the panel reads from a rendered file, setting by setting. */
  lemma SettingsRendered(c: Config)
    requires NewlineFree(c)
    ensures var content := RenderConfigEnv(c);
      && PanelValue(content, "HTTP_HOST") == Some(TrimRight(c.httpHost))
      && PanelValue(content, "HTTP_PORT") == Some(TrimRight(c.httpPort))
      && PanelValue(content, "GRPC_ENABLED") == (if c.grpcEnabled then Some("true") else None)
      && PanelValue(content, "GRPC_PORT") == (if c.grpcEnabled then Some(TrimRight(c.grpcPort)) else None)
      && PanelValue(content, "DATABASE_DRIVER") == Some(TrimRight(c.databaseDriver))
      && PanelValue(content, "DATABASE_URL") == Some(TrimRight(c.databaseURL))
      && PanelValue(content, "AUTH_SERVICE") == Some(TrimRight(c.authService))
      && PanelValue(content, "CACHE_DRIVER") == Some(TrimRight(c.cacheDriver))
      && PanelValue(content, "FILES_DRIVER") == Some(TrimRight(c.filesDriver))
      && PanelValue(content, "FILES_LOCAL_BASE_PATH") == Some(TrimRight(c.filesLocalBasePath))
      && PanelValue(content, "LEGACY_PATH") == Some(TrimRight(c.legacyPath))
      && PanelValue(content, "GLOBAL_API_URL") == Some(TrimRight(c.globalAPIURL))
  {
    EarlySettings(c);
    GRPCSettings(c);
    LateSettings(c);
  }

  lemma EarlySettings(c: Config)
    requires NewlineFree(c)
    ensures var content := RenderConfigEnv(c);
      && PanelValue(content, "HTTP_HOST") == Some(TrimRight(c.httpHost))
      && PanelValue(content, "HTTP_PORT") == Some(TrimRight(c.httpPort))
      && PanelValue(content, "DATABASE_DRIVER") == Some(TrimRight(c.databaseDriver))
      && PanelValue(content, "DATABASE_URL") == Some(TrimRight(c.databaseURL))
  {
    HostLine(c);
    Rendered(c, 1, "HTTP_HOST", c.httpHost);
    PortLine(c);
    Rendered(c, 2, "HTTP_PORT", c.httpPort);
    DriverLine(c);
    Rendered(c, 5 + Block(c), "DATABASE_DRIVER", c.databaseDriver);
    URLLine(c);
    Rendered(c, 6 + Block(c), "DATABASE_URL", c.databaseURL);
  }

  lemma GRPCSettings(c: Config)
    requires NewlineFree(c)
    ensures var content := RenderConfigEnv(c);
      && PanelValue(content, "GRPC_ENABLED") == (if c.grpcEnabled then Some("true") else None)
      && PanelValue(content, "GRPC_PORT") == (if c.grpcEnabled then Some(TrimRight(c.grpcPort)) else None)
  {
    GRPCLines(c);
    ParseRendered(c, "GRPC_ENABLED");
    ParseRendered(c, "GRPC_PORT");
    assert TrimRight("true") == "true";
  }

  lemma LateSettings(c: Config)
    requires NewlineFree(c)
    ensures var content := RenderConfigEnv(c);
      && PanelValue(content, "AUTH_SERVICE") == Some(TrimRight(c.authService))
      && PanelValue(content, "CACHE_DRIVER") == Some(TrimRight(c.cacheDriver))
      && PanelValue(content, "FILES_DRIVER") == Some(TrimRight(c.filesDriver))
      && PanelValue(content, "FILES_LOCAL_BASE_PATH") == Some(TrimRight(c.filesLocalBasePath))
      && PanelValue(content, "LEGACY_PATH") == Some(TrimRight(c.legacyPath))
      && PanelValue(content, "GLOBAL_API_URL") == Some(TrimRight(c.globalAPIURL))
  {
    AuthLine(c);
    Rendered(c, 11 + Block(c), "AUTH_SERVICE", c.authService);
    CacheLine(c);
    Rendered(c, 14 + Block(c), "CACHE_DRIVER", c.cacheDriver);
    FilesLine(c);
    Rendered(c, 17 + Block(c), "FILES_DRIVER", c.filesDriver);
    BasePathLine(c);
    Rendered(c, 18 + Block(c), "FILES_LOCAL_BASE_PATH", c.filesLocalBasePath);
    LegacyLine(c);
    Rendered(c, 21 + Block(c), "LEGACY_PATH", c.legacyPath);
    GlobalLine(c);
    Rendered(c, 24 + Block(c), "GLOBAL_API_URL", c.globalAPIURL);
  }

  lemma DefaultsNewlineFree(c: Config)
    requires NewlineFree(c)
    ensures NewlineFree(ApplyConfigDefaults(c))
  {
    assert LF !in "0.0.0.0" && LF !in "8025" && LF !in "paseto" && LF !in "inmemory" && LF !in "local";
    assert LF !in "/files" && LF !in DefaultGRPCPort;
    assert LF !in "https://api.gameap.com";
  }

  function ReadBack(value: string, default: string): string {
    if value == "" then default else TrimRight(value)
  }

  /** What the panel reads for the settings that have a default, when the file was
      rendered from settings some of which were left empty. */
  lemma DefaultsRendered(c: Config)
    requires NewlineFree(c)
    ensures var content := RenderConfigEnv(ApplyConfigDefaults(c));
      && PanelValue(content, "HTTP_HOST") == Some(ReadBack(c.httpHost, "0.0.0.0"))
      && PanelValue(content, "HTTP_PORT") == Some(ReadBack(c.httpPort, "8025"))
      && PanelValue(content, "GRPC_PORT") == (if c.grpcEnabled then Some(ReadBack(c.grpcPort, "31718")) else None)
      && PanelValue(content, "AUTH_SERVICE") == Some(ReadBack(c.authService, "paseto"))
      && PanelValue(content, "CACHE_DRIVER") == Some(ReadBack(c.cacheDriver, "inmemory"))
      && PanelValue(content, "FILES_DRIVER") == Some(ReadBack(c.filesDriver, "local"))
      && PanelValue(content, "FILES_LOCAL_BASE_PATH")
           == Some(ReadBack(c.filesLocalBasePath, c.dataDirectory + "/files"))
      && PanelValue(content, "GLOBAL_API_URL") == Some(ReadBack(c.globalAPIURL, "https://api.gameap.com"))
  {
    DefaultsNewlineFree(c);
    SettingsRendered(ApplyConfigDefaults(c));
    AddressDefaults(c);
    DriverDefaults(c);
    PathDefaults(c);
  }

  lemma AddressDefaults(c: Config)
    ensures var d := ApplyConfigDefaults(c);
      && TrimRight(d.httpHost) == ReadBack(c.httpHost, "0.0.0.0")
      && TrimRight(d.httpPort) == ReadBack(c.httpPort, "8025")
      && (c.grpcEnabled ==> TrimRight(d.grpcPort) == ReadBack(c.grpcPort, "31718"))
      && d.grpcEnabled == c.grpcEnabled && (!c.grpcEnabled ==> d.grpcPort == c.grpcPort)
  {
    assert TrimRight("0.0.0.0") == "0.0.0.0" && TrimRight("8025") == "8025" && TrimRight("31718") == "31718";
  }

  lemma DriverDefaults(c: Config)
    ensures var d := ApplyConfigDefaults(c);
      && TrimRight(d.authService) == ReadBack(c.authService, "paseto")
      && TrimRight(d.cacheDriver) == ReadBack(c.cacheDriver, "inmemory")
      && TrimRight(d.filesDriver) == ReadBack(c.filesDriver, "local")
  {
    assert TrimRight("paseto") == "paseto" && TrimRight("inmemory") == "inmemory" && TrimRight("local") == "local";
  }

  lemma PathDefaults(c: Config)
    ensures var d := ApplyConfigDefaults(c);
      && TrimRight(d.filesLocalBasePath) == ReadBack(c.filesLocalBasePath, c.dataDirectory + "/files")
      && TrimRight(d.globalAPIURL) == ReadBack(c.globalAPIURL, "https://api.gameap.com")
  {
    var base := c.dataDirectory + "/files";
    assert base[|base| - 1] == 's';
    var url: string := "https://api.gameap.com";
    assert url[|url| - 1] == 'm';
  }

  lemma SecretLines(c: Config) returns (i: nat)
    ensures LastSetAt(Template(c), EncryptionKey, i)
    ensures LastSetAt(Template(c), AuthSecret, i + 1)
    ensures Template(c)[i].value == c.encryptionKey && Template(c)[i + 1].value == c.authSecret
  {
    i := if c.grpcEnabled then 13 else 9;
  }

  /** The two secrets are rendered whatever the other settings are. */
  lemma SecretsRendered(c: Config)
    requires NewlineFree(c)
    ensures PanelValue(RenderConfigEnv(c), "ENCRYPTION_KEY") == Some(TrimRight(c.encryptionKey))
    ensures PanelValue(RenderConfigEnv(c), "AUTH_SECRET") == Some(TrimRight(c.authSecret))
  {
    var i := SecretLines(c);
    ParseRendered(c, EncryptionKey);
    ParseRendered(c, AuthSecret);
  }
}
