/**
 Core dump metadata: the writer and reader of systemd-coredump and the second reader of coredumpctl,
 which keeps fourteen of the seventeen fields.
 */
module CoreDump {
  import opened Bytes
  import opened Text
  import opened Decimal
  import opened Json

  datatype Meta = Meta(
    pid: u64, uid: u64, gid: u64, signal: u32, timestamp: u64, rlimit: u64,
    hostname: string, comm: string, exe: string, backtrace: bool, coreSize: u64, filename: string,
    bootId: string, machineId: string, cmdline: string, cgroup: string, environ: string)

  /** What coredumpctl keeps. */
  datatype Summary = Summary(
    pid: u64, uid: u64, gid: u64, signal: u32, timestamp: u64, rlimit: u64,
    hostname: string, comm: string, exe: string, backtrace: bool, coreSize: u64, filename: string,
    bootId: string, machineId: string)

  function SignalName(signal: u32): string
  {
    match signal
    case 1 => "SIGHUP"
    case 2 => "SIGINT"
    case 3 => "SIGQUIT"
    case 4 => "SIGILL"
    case 5 => "SIGTRAP"
    case 6 => "SIGABRT"
    case 7 => "SIGBUS"
    case 8 => "SIGFPE"
    case 9 => "SIGKILL"
    case 11 => "SIGSEGV"
    case 13 => "SIGPIPE"
    case 14 => "SIGALRM"
    case 15 => "SIGTERM"
    case _ => "unknown"
  }

  // ---------- the writer ----------

  /** The value of one line: a number, a truth value, or a string, which is quoted and escaped. */
  datatype Value = Num(n: nat) | Bool(b: bool) | Str(s: string)

  datatype Field = Field(key: string, value: Value)

  /** The lines of the object in the order they are written. */
  function Fields(m: Meta): seq<Field>
  {
    [
      Field("PID", Num(m.pid)), Field("UID", Num(m.uid)), Field("GID", Num(m.gid)), Field("SIGNAL", Num(m.signal)),
      Field("SIGNAL_NAME", Str(SignalName(m.signal))), Field("TIMESTAMP", Num(m.timestamp)),
      Field("RLIMIT", Num(m.rlimit)), Field("HOSTNAME", Str(m.hostname)), Field("COMM", Str(m.comm)),
      Field("EXE", Str(m.exe)), Field("BOOT_ID", Str(m.bootId)), Field("MACHINE_ID", Str(m.machineId)),
      Field("CORE_SIZE", Num(m.coreSize)), Field("FILENAME", Str(m.filename)), Field("CMDLINE", Str(m.cmdline)),
      Field("CGROUP", Str(m.cgroup)), Field("ENVIRON", Str(m.environ)), Field("BACKTRACE", Bool(m.backtrace))
    ]
  }

  function BoolText(b: bool): string { if b then "true" else "false" }

  function ValueText(v: Value): string
  {
    match v
    case Num(n) => ToDecimal(n)
    case Bool(b) => BoolText(b)
    case Str(s) => "\"" + Escape(s) + "\""
  }

  function FieldLine(f: Field, last: bool): string
  {
    "  \"" + f.key + "\": " + ValueText(f.value) + (if last then "" else ",")
  }

  /** The lines of the fields, the last without a comma. */
  function FieldLines(fields: seq<Field>): seq<string>
  {
    seq(|fields|, k requires 0 <= k < |fields| => FieldLine(fields[k], k == |fields| - 1))
  }

  function JsonText(m: Meta): string { "{\n" + Unlines(FieldLines(Fields(m))) + "}" }

  method PushLine(json0: string, line: string, ghost before: seq<string>) returns (json: string, ghost lines: seq<string>)
    requires json0 == "{\n" + Unlines(before)
    ensures lines == before + [line] && json == "{\n" + Unlines(lines)
  {
    UnlinesSnoc(before, line);
    return json0 + line + "\n", before + [line];
  }

  lemma SignalNamePlain(signal: u32)
    ensures Escape(SignalName(signal)) == SignalName(signal)
  {
    PlainIsUnescaped(SignalName(signal));
  }

  lemma {:induction false} PlainIsUnescaped(s: string)
    requires forall k :: 0 <= k < |s| ==> ' ' <= s[k] && s[k] != '"' && s[k] != '\\'
    ensures Escape(s) == s
  {
    if s != "" {
      PlainIsUnescaped(s[1..]);
    }
  }

  /** Signals and their names. */
  lemma SignalNames(signal: u32)
    ensures SignalName(1) == "SIGHUP" && SignalName(2) == "SIGINT" && SignalName(3) == "SIGQUIT" && SignalName(4) == "SIGILL"
    ensures SignalName(5) == "SIGTRAP" && SignalName(6) == "SIGABRT" && SignalName(7) == "SIGBUS" && SignalName(8) == "SIGFPE"
    ensures SignalName(9) == "SIGKILL" && SignalName(11) == "SIGSEGV" && SignalName(13) == "SIGPIPE"
    ensures SignalName(14) == "SIGALRM" && SignalName(15) == "SIGTERM"
    ensures signal in {0, 10, 12} || signal > 15 ==> SignalName(signal) == "unknown"
  {
  }

  lemma NumberLine(head: string, key: string, n: nat)
    requires head == "  \"" + key + "\": "
    ensures FieldLine(Field(key, Num(n)), false) == head + ToDecimal(n) + ","
  {
  }

  lemma StringLine(head: string, key: string, s: string)
    requires head == "  \"" + key + "\": \""
    ensures FieldLine(Field(key, Str(s)), false) == head + Escape(s) + "\","
  {
    hide Escape;
    Regroup("  \"" + key + "\": ", "\"", Escape(s), ",");
    assert "\"" + "," == "\",";
  }

  lemma Regroup(open: string, quote: string, text: string, comma: string)
    ensures open + (quote + text + quote) + comma == open + quote + text + (quote + comma)
  {
  }

  /** The lines written, each value under its own key: numbers plain, strings quoted and escaped. */
  lemma NumbersMean(m: Meta)
    ensures FirstLines(m)[..5]
         == ["  \"PID\": " + ToDecimal(m.pid) + ",",
             "  \"UID\": " + ToDecimal(m.uid) + ",",
             "  \"GID\": " + ToDecimal(m.gid) + ",",
             "  \"SIGNAL\": " + ToDecimal(m.signal) + ",",
             "  \"SIGNAL_NAME\": \"" + SignalName(m.signal) + "\","]
  {
    hide ToDecimal, Escape, SignalName, FieldLine;
    NumberLine("  \"PID\": ", "PID", m.pid);
    NumberLine("  \"UID\": ", "UID", m.uid);
    NumberLine("  \"GID\": ", "GID", m.gid);
    NumberLine("  \"SIGNAL\": ", "SIGNAL", m.signal);
    SignalLine(m.signal);
  }

  lemma ProcessMeans(m: Meta)
    ensures FirstLines(m)[5..]
         == ["  \"TIMESTAMP\": " + ToDecimal(m.timestamp) + ",",
             "  \"RLIMIT\": " + ToDecimal(m.rlimit) + ",",
             "  \"HOSTNAME\": \"" + Escape(m.hostname) + "\",",
             "  \"COMM\": \"" + Escape(m.comm) + "\","]
  {
    hide ToDecimal, Escape, SignalName, FieldLine;
    NumberLine("  \"TIMESTAMP\": ", "TIMESTAMP", m.timestamp);
    NumberLine("  \"RLIMIT\": ", "RLIMIT", m.rlimit);
    StringLine("  \"HOSTNAME\": \"", "HOSTNAME", m.hostname);
    StringLine("  \"COMM\": \"", "COMM", m.comm);
  }

  lemma FilesMean(m: Meta)
    ensures LastLines(m)[..5]
         == ["  \"EXE\": \"" + Escape(m.exe) + "\",",
             "  \"BOOT_ID\": \"" + Escape(m.bootId) + "\",",
             "  \"MACHINE_ID\": \"" + Escape(m.machineId) + "\",",
             "  \"CORE_SIZE\": " + ToDecimal(m.coreSize) + ",",
             "  \"FILENAME\": \"" + Escape(m.filename) + "\","]
  {
    hide ToDecimal, Escape, SignalName, FieldLine;
    StringLine("  \"EXE\": \"", "EXE", m.exe);
    StringLine("  \"BOOT_ID\": \"", "BOOT_ID", m.bootId);
    StringLine("  \"MACHINE_ID\": \"", "MACHINE_ID", m.machineId);
    NumberLine("  \"CORE_SIZE\": ", "CORE_SIZE", m.coreSize);
    StringLine("  \"FILENAME\": \"", "FILENAME", m.filename);
  }

  lemma ContextMeans(m: Meta)
    ensures LastLines(m)[5..]
         == ["  \"CMDLINE\": \"" + Escape(m.cmdline) + "\",",
             "  \"CGROUP\": \"" + Escape(m.cgroup) + "\",",
             "  \"ENVIRON\": \"" + Escape(m.environ) + "\",",
             "  \"BACKTRACE\": " + (if m.backtrace then "true" else "false")]
  {
    hide ToDecimal, Escape, SignalName, FieldLine;
    StringLine("  \"CMDLINE\": \"", "CMDLINE", m.cmdline);
    StringLine("  \"CGROUP\": \"", "CGROUP", m.cgroup);
    StringLine("  \"ENVIRON\": \"", "ENVIRON", m.environ);
    TruthLine("  \"BACKTRACE\": ", "BACKTRACE", m.backtrace);
  }

  /** The eighteen lines of the text. */
  lemma LinesMean(m: Meta)
    ensures FieldLines(Fields(m))[..9]
         == ["  \"PID\": " + ToDecimal(m.pid) + ",",
             "  \"UID\": " + ToDecimal(m.uid) + ",",
             "  \"GID\": " + ToDecimal(m.gid) + ",",
             "  \"SIGNAL\": " + ToDecimal(m.signal) + ",",
             "  \"SIGNAL_NAME\": \"" + SignalName(m.signal) + "\",",
             "  \"TIMESTAMP\": " + ToDecimal(m.timestamp) + ",",
             "  \"RLIMIT\": " + ToDecimal(m.rlimit) + ",",
             "  \"HOSTNAME\": \"" + Escape(m.hostname) + "\",",
             "  \"COMM\": \"" + Escape(m.comm) + "\","]
    ensures FieldLines(Fields(m))[9..]
         == ["  \"EXE\": \"" + Escape(m.exe) + "\",",
             "  \"BOOT_ID\": \"" + Escape(m.bootId) + "\",",
             "  \"MACHINE_ID\": \"" + Escape(m.machineId) + "\",",
             "  \"CORE_SIZE\": " + ToDecimal(m.coreSize) + ",",
             "  \"FILENAME\": \"" + Escape(m.filename) + "\",",
             "  \"CMDLINE\": \"" + Escape(m.cmdline) + "\",",
             "  \"CGROUP\": \"" + Escape(m.cgroup) + "\",",
             "  \"ENVIRON\": \"" + Escape(m.environ) + "\",",
             "  \"BACKTRACE\": " + (if m.backtrace then "true" else "false")]
  {
    hide ToDecimal, Escape, SignalName, FieldLine, Fields, FieldLines, FirstLines, LastLines;
    LinesInOrder(m);
    NumbersMean(m);
    ProcessMeans(m);
    FilesMean(m);
    ContextMeans(m);
    NineAndNine(m);
    assert FirstLines(m) == FirstLines(m)[..5] + FirstLines(m)[5..];
    assert LastLines(m) == LastLines(m)[..5] + LastLines(m)[5..];
  }

  lemma NineAndNine(m: Meta)
    ensures |FirstLines(m)| == |LastLines(m)| == 9
  {
    hide FieldLine, SignalName;
  }

  lemma TruthLine(head: string, key: string, b: bool)
    requires head == "  \"" + key + "\": "
    ensures FieldLine(Field(key, Bool(b)), true) == head + (if b then "true" else "false")
  {
    assert head + BoolText(b) + "" == head + BoolText(b);
  }

  method ToJson(m: Meta) returns (json: string)
    ensures json == JsonText(m)
  {
    hide Unlines, FieldLine, ValueText, Fields;
    NoLines();
    ghost var lines: seq<string>;
    json, lines := PushFirstLines("{\n", m);
    json, lines := PushLastLines(json, m, lines);
    LinesInOrder(m);
    json := json + "}";
  }

  ghost function FirstLines(m: Meta): seq<string>
  {
    [
      FieldLine(Field("PID", Num(m.pid)), false), FieldLine(Field("UID", Num(m.uid)), false),
      FieldLine(Field("GID", Num(m.gid)), false), FieldLine(Field("SIGNAL", Num(m.signal)), false),
      FieldLine(Field("SIGNAL_NAME", Str(SignalName(m.signal))), false),
      FieldLine(Field("TIMESTAMP", Num(m.timestamp)), false), FieldLine(Field("RLIMIT", Num(m.rlimit)), false),
      FieldLine(Field("HOSTNAME", Str(m.hostname)), false), FieldLine(Field("COMM", Str(m.comm)), false)
    ]
  }

  ghost function LastLines(m: Meta): seq<string>
  {
    [
      FieldLine(Field("EXE", Str(m.exe)), false), FieldLine(Field("BOOT_ID", Str(m.bootId)), false),
      FieldLine(Field("MACHINE_ID", Str(m.machineId)), false), FieldLine(Field("CORE_SIZE", Num(m.coreSize)), false),
      FieldLine(Field("FILENAME", Str(m.filename)), false), FieldLine(Field("CMDLINE", Str(m.cmdline)), false),
      FieldLine(Field("CGROUP", Str(m.cgroup)), false), FieldLine(Field("ENVIRON", Str(m.environ)), false),
      FieldLine(Field("BACKTRACE", Bool(m.backtrace)), true)
    ]
  }

  lemma LinesInOrder(m: Meta)
    ensures FieldLines(Fields(m)) == FirstLines(m) + LastLines(m)
  {
    hide FieldLine, SignalName;
  }

  method PushFirstLines(json0: string, m: Meta) returns (json: string, ghost lines: seq<string>)
    requires json0 == "{\n" + Unlines([])
    ensures lines == FirstLines(m) && json == "{\n" + Unlines(lines)
  {
    hide Unlines, FieldLine;
    json, lines := PushLine(json0, FieldLine(Field("PID", Num(m.pid)), false), []);
    json, lines := PushLine(json, FieldLine(Field("UID", Num(m.uid)), false), lines);
    json, lines := PushLine(json, FieldLine(Field("GID", Num(m.gid)), false), lines);
    json, lines := PushLine(json, FieldLine(Field("SIGNAL", Num(m.signal)), false), lines);
    SignalLine(m.signal);
    json, lines := PushLine(json, "  \"SIGNAL_NAME\": \"" + SignalName(m.signal) + "\",", lines);
    json, lines := PushLine(json, FieldLine(Field("TIMESTAMP", Num(m.timestamp)), false), lines);
    json, lines := PushLine(json, FieldLine(Field("RLIMIT", Num(m.rlimit)), false), lines);
    json, lines := PushLine(json, FieldLine(Field("HOSTNAME", Str(m.hostname)), false), lines);
    json, lines := PushLine(json, FieldLine(Field("COMM", Str(m.comm)), false), lines);
  }

  method PushLastLines(json0: string, m: Meta, ghost before: seq<string>) returns (json: string, ghost lines: seq<string>)
    requires json0 == "{\n" + Unlines(before)
    ensures lines == before + LastLines(m) && json == "{\n" + Unlines(lines)
  {
    hide Unlines, FieldLine;
    json, lines := PushLine(json0, FieldLine(Field("EXE", Str(m.exe)), false), before);
    json, lines := PushLine(json, FieldLine(Field("BOOT_ID", Str(m.bootId)), false), lines);
    json, lines := PushLine(json, FieldLine(Field("MACHINE_ID", Str(m.machineId)), false), lines);
    json, lines := PushLine(json, FieldLine(Field("CORE_SIZE", Num(m.coreSize)), false), lines);
    json, lines := PushLine(json, FieldLine(Field("FILENAME", Str(m.filename)), false), lines);
    json, lines := PushLine(json, FieldLine(Field("CMDLINE", Str(m.cmdline)), false), lines);
    json, lines := PushLine(json, FieldLine(Field("CGROUP", Str(m.cgroup)), false), lines);
    json, lines := PushLine(json, FieldLine(Field("ENVIRON", Str(m.environ)), false), lines);
    json, lines := PushLine(json, FieldLine(Field("BACKTRACE", Bool(m.backtrace)), true), lines);
    assert lines == before + LastLines(m);
  }

  lemma NoLines()
    ensures Unlines([]) == ""
  {
  }

  lemma SignalLine(signal: u32)
    ensures "  \"SIGNAL_NAME\": \"" + SignalName(signal) + "\"," == FieldLine(Field("SIGNAL_NAME", Str(SignalName(signal))), false)
  {
    hide SignalName;
    SignalNamePlain(signal);
    var name := SignalName(signal);
    assert "  \"SIGNAL_NAME\": \"" + name + "\"," == "  \"" + "SIGNAL_NAME" + "\": " + ("\"" + name + "\"") + ",";
  }

  // ---------- the readers ----------

  function ParseField(m: map<string, string>, key: string, limit: nat): Option<nat>
  {
    if key in m then ParseUnsigned(Trim(m[key]), limit) else None
  }

  function NumberOr(n: Option<nat>, default: nat): nat { match n case Some(v) => v case None => default }

  function TextOr(m: map<string, string>, key: string): string { if key in m then m[key] else "" }

  function ReadSummary(m: map<string, string>): Option<Summary>
  {
    var pid, uid, gid := ParseField(m, "PID", U64_LIMIT), ParseField(m, "UID", U64_LIMIT), ParseField(m, "GID", U64_LIMIT);
    var signal, timestamp := ParseField(m, "SIGNAL", U32_LIMIT), ParseField(m, "TIMESTAMP", U64_LIMIT);
    if pid.None? || uid.None? || gid.None? || signal.None? || timestamp.None? then None
    else
      Some(Summary(
        pid.value, uid.value, gid.value, signal.value, timestamp.value,
        NumberOr(ParseField(m, "RLIMIT", U64_LIMIT), 0),
        TextOr(m, "HOSTNAME"), TextOr(m, "COMM"), TextOr(m, "EXE"),
        "BACKTRACE" in m && Trim(m["BACKTRACE"]) == "true",
        NumberOr(ParseField(m, "CORE_SIZE", U64_LIMIT), 0),
        TextOr(m, "FILENAME"), TextOr(m, "BOOT_ID"), TextOr(m, "MACHINE_ID")))
  }

  predicate HoldsNumber(m: map<string, string>, key: string, limit: nat)
  {
    key in m && ParseUnsigned(Trim(m[key]), limit).Some?
  }

  /** Five numbers are required, everything else has a default; only `true` is true. */
  lemma RequiredAndDefaults(m: map<string, string>)
    ensures ReadSummary(m).Some?
       <==> && HoldsNumber(m, "PID", 0x1_0000_0000_0000_0000) && HoldsNumber(m, "UID", 0x1_0000_0000_0000_0000)
            && HoldsNumber(m, "GID", 0x1_0000_0000_0000_0000) && HoldsNumber(m, "TIMESTAMP", 0x1_0000_0000_0000_0000)
            && HoldsNumber(m, "SIGNAL", 0x1_0000_0000)
    ensures ReadSummary(m).Some? ==>
      var r := ReadSummary(m).value;
      && (!HoldsNumber(m, "RLIMIT", 0x1_0000_0000_0000_0000) ==> r.rlimit == 0)
      && (!HoldsNumber(m, "CORE_SIZE", 0x1_0000_0000_0000_0000) ==> r.coreSize == 0)
      && (r.backtrace <==> "BACKTRACE" in m && Trim(m["BACKTRACE"]) == "true")
      && r.hostname == (if "HOSTNAME" in m then m["HOSTNAME"] else "") && r.comm == (if "COMM" in m then m["COMM"] else "")
      && r.exe == (if "EXE" in m then m["EXE"] else "") && r.filename == (if "FILENAME" in m then m["FILENAME"] else "")
      && r.bootId == (if "BOOT_ID" in m then m["BOOT_ID"] else "")
      && r.machineId == (if "MACHINE_ID" in m then m["MACHINE_ID"] else "")
  {
    hide ParseUnsigned, Trim;
  }

  /** The reader of coredumpctl. */
  function SummaryFromJson(s: string): Option<Summary>
  {
    match ParsedObject(s) case None => None case Some(m) => ReadSummary(m)
  }

  /** The reader of coredump: the same fields and three more. */
  function MetaFromJson(s: string): Option<Meta>
  {
    match ParsedObject(s)
    case None => None
    case Some(m) =>
      match ReadSummary(m)
      case None => None
      case Some(r) =>
        Some(Meta(
          r.pid, r.uid, r.gid, r.signal, r.timestamp, r.rlimit, r.hostname, r.comm, r.exe, r.backtrace, r.coreSize,
          r.filename, r.bootId, r.machineId, TextOr(m, "CMDLINE"), TextOr(m, "CGROUP"), TextOr(m, "ENVIRON")))
  }

  // ---------- reading what was written ----------

  /** What a reader finds under the key of a written value. */
  function Found(v: Value): string
  {
    match v case Num(n) => ToDecimal(n) case Bool(b) => BoolText(b) case Str(s) => s
  }

  lemma EntryOfField(f: Field, last: bool)
    requires PlainKey(f.key)
    ensures Entry(FieldLine(f, last)) == Some((f.key, Found(f.value)))
  {
    hide Escape, ToDecimal, Entry, PlainKey;
    EntryOfLine(f.key, ValueText(f.value), if last then "" else ",");
    match f.value {
      case Num(n) => assert ToDecimal(n)[0] != '"';
      case Bool(_) =>
      case Str(s) => DecodeString(s);
    }
  }

  lemma FieldOnOneLine(f: Field, last: bool)
    requires PlainKey(f.key)
    ensures '\n' !in FieldLine(f, last) && '\r' !in FieldLine(f, last)
  {
    hide Escape, ToDecimal;
    match f.value {
      case Num(n) => assert Digits(ToDecimal(n));
      case Bool(_) =>
      case Str(s) => EscapeOneLine(s);
    }
  }

  lemma PlainKeys(m: Meta, k: nat)
    requires k < |Fields(m)|
    ensures PlainKey(Fields(m)[k].key)
  {
  }

  lemma DistinctKeys(m: Meta, j: nat, k: nat)
    requires j < k < |Fields(m)|
    ensures Fields(m)[j].key != Fields(m)[k].key
  {
  }

  /** Whatever the strings hold, a reader finds every written value under its key. */
  lemma EveryFieldIsFound(m: Meta, k: nat)
    requires k < |Fields(m)|
    ensures ParsedObject(JsonText(m)).Some?
    ensures var found := ParsedObject(JsonText(m)).value; var f := Fields(m)[k];
      f.key in found && found[f.key] == Found(f.value)
  {
    hide Fields, FieldLine, Unlines, Lines, Entries, Entry, PlainKey, Found;
    var lines := FieldLines(Fields(m));
    forall j: nat | j < |lines|
      ensures '\n' !in lines[j] && '\r' !in lines[j] && Entry(lines[j]) == Some((Fields(m)[j].key, Found(Fields(m)[j].value)))
    {
      PlainKeys(m, j);
      FieldOnOneLine(Fields(m)[j], j == |lines| - 1);
      EntryOfField(Fields(m)[j], j == |lines| - 1);
    }
    var s := JsonText(m);
    TrimTight(s);
    assert s[1..|s| - 1] == "\n" + Unlines(lines);
    LinesOfUnlines(lines);
    var all := [""] + lines;
    forall j: nat | k + 1 < j < |all|
      ensures Entry(all[j]).None? || Entry(all[j]).value.0 != Fields(m)[k].key
    {
      assert all[j] == lines[j - 1];
      DistinctKeys(m, k, j - 1);
    }
    assert all[k + 1] == lines[k];
    EntriesLookup(all, k + 1, Fields(m)[k].key, Found(Fields(m)[k].value));
  }

  lemma NumberFound(n: nat, limit: nat)
    requires n < limit
    ensures ParseUnsigned(Trim(ToDecimal(n)), limit) == Some(n)
  {
    hide ToDecimal;
    assert IsDigit(ToDecimal(n)[0]) && IsDigit(ToDecimal(n)[|ToDecimal(n)| - 1]);
    TrimTight(ToDecimal(n));
  }

  lemma BoolFound(b: bool)
    ensures Trim(BoolText(b)) == "true" <==> b
  {
    TrimTight(BoolText(b));
  }

  /** A number written under a key is read back. */
  lemma FindNumber(m: Meta, k: nat, n: nat, limit: nat)
    requires k < |Fields(m)| && Fields(m)[k].value == Num(n) && n < limit
    ensures ParsedObject(JsonText(m)).Some?
    ensures ParseField(ParsedObject(JsonText(m)).value, Fields(m)[k].key, limit) == Some(n)
  {
    hide Fields, ParsedObject, JsonText, ToDecimal, ParseUnsigned, Trim;
    EveryFieldIsFound(m, k);
    NumberFound(n, limit);
  }

  /** A string written under a key is read back. */
  lemma FindString(m: Meta, k: nat, s: string)
    requires k < |Fields(m)| && Fields(m)[k].value == Str(s)
    ensures ParsedObject(JsonText(m)).Some?
    ensures TextOr(ParsedObject(JsonText(m)).value, Fields(m)[k].key) == s
  {
    hide Fields, ParsedObject, JsonText;
    EveryFieldIsFound(m, k);
  }

  function SummaryOf(m: Meta): Summary
  {
    Summary(m.pid, m.uid, m.gid, m.signal, m.timestamp, m.rlimit, m.hostname, m.comm, m.exe, m.backtrace, m.coreSize,
            m.filename, m.bootId, m.machineId)
  }

  lemma NumbersFound(m: Meta)
    ensures ParsedObject(JsonText(m)).Some?
    ensures var found := ParsedObject(JsonText(m)).value;
      && ParseField(found, "PID", U64_LIMIT) == Some(m.pid)
      && ParseField(found, "UID", U64_LIMIT) == Some(m.uid)
      && ParseField(found, "GID", U64_LIMIT) == Some(m.gid)
      && ParseField(found, "SIGNAL", U32_LIMIT) == Some(m.signal)
      && ParseField(found, "TIMESTAMP", U64_LIMIT) == Some(m.timestamp)
      && ParseField(found, "RLIMIT", U64_LIMIT) == Some(m.rlimit)
      && ParseField(found, "CORE_SIZE", U64_LIMIT) == Some(m.coreSize)
  {
    hide ParsedObject, JsonText, ParseField, SignalName;
    FindNumber(m, 0, m.pid, U64_LIMIT);
    FindNumber(m, 1, m.uid, U64_LIMIT);
    FindNumber(m, 2, m.gid, U64_LIMIT);
    FindNumber(m, 3, m.signal, U32_LIMIT);
    FindNumber(m, 5, m.timestamp, U64_LIMIT);
    FindNumber(m, 6, m.rlimit, U64_LIMIT);
    FindNumber(m, 12, m.coreSize, U64_LIMIT);
  }

  lemma StringsFound(m: Meta)
    ensures ParsedObject(JsonText(m)).Some?
    ensures var found := ParsedObject(JsonText(m)).value;
      && TextOr(found, "HOSTNAME") == m.hostname && TextOr(found, "COMM") == m.comm && TextOr(found, "EXE") == m.exe
      && TextOr(found, "BOOT_ID") == m.bootId && TextOr(found, "MACHINE_ID") == m.machineId
      && TextOr(found, "FILENAME") == m.filename && TextOr(found, "CMDLINE") == m.cmdline
      && TextOr(found, "CGROUP") == m.cgroup && TextOr(found, "ENVIRON") == m.environ
  {
    hide ParsedObject, JsonText, TextOr, SignalName;
    FindString(m, 7, m.hostname);
    FindString(m, 8, m.comm);
    FindString(m, 9, m.exe);
    FindString(m, 10, m.bootId);
    FindString(m, 11, m.machineId);
    FindString(m, 13, m.filename);
    FindString(m, 14, m.cmdline);
    FindString(m, 15, m.cgroup);
    FindString(m, 16, m.environ);
  }

  lemma BacktraceFound(m: Meta)
    ensures ParsedObject(JsonText(m)).Some?
    ensures var found := ParsedObject(JsonText(m)).value;
      "BACKTRACE" in found && (Trim(found["BACKTRACE"]) == "true" <==> m.backtrace)
  {
    hide ParsedObject, JsonText, SignalName, Trim;
    EveryFieldIsFound(m, 17);
    BoolFound(m.backtrace);
  }

  /**
   The round trip: coredump reads back exactly the record it wrote, and coredumpctl the fields it
   keeps, whatever the strings hold.
   */
  lemma ReadersRecover(m: Meta)
    ensures MetaFromJson(JsonText(m)) == Some(m)
    ensures SummaryFromJson(JsonText(m)) == Some(SummaryOf(m))
  {
    hide ParsedObject, JsonText, ParseField, TextOr, Trim;
    NumbersFound(m);
    StringsFound(m);
    BacktraceFound(m);
  }
}
