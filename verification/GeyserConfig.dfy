/**
 The configuration file of foton-bedrock/src/geyser.rs: `yaml_quote` and `render_config`, read back
 by the rules of YAML 1.2.2, sections 5.7 (escapes) and 7.3.1 (double-quoted scalars).
 */
module GeyserConfig {
  import opened Decimals
  import opened Segments
  import opened Wrappers

  // ------------------------------------------------------------------- quoting

  /** What one character becomes inside the quotes. */
  function Escaped(c: char): (text: string)
    ensures 1 <= |text| <= 2
  {
    match c
    case '\\' => "\\\\"
    case '\"' => "\\\""
    case '\n' => "\\n"
    case '\r' => "\\r"
    case '\t' => "\\t"
    case _ => [c]
  }

  function EscapedAll(value: string): string {
    if value == "" then "" else Escaped(value[0]) + EscapedAll(value[1..])
  }

  function Quoted(value: string): string {
    "\"" + EscapedAll(value) + "\""
  }

  lemma {:induction false} EscapedAppend(value: string, c: char)
    ensures EscapedAll(value + [c]) == EscapedAll(value) + Escaped(c)
  {
    if value == "" {
      assert value + [c] == [c];
      assert EscapedAll([c]) == Escaped(c) + EscapedAll("");
    } else {
      assert (value + [c])[1..] == value[1..] + [c];
      EscapedAppend(value[1..], c);
    }
  }

  /** `yaml_quote`. */
  method YamlQuote(value: string) returns (escaped: string)
    ensures escaped == Quoted(value)
  {
    hide EscapedAll;
    escaped := "\"";
    Nothing();
    for i := 0 to |value|
      invariant escaped == "\"" + EscapedAll(value[..i])
    {
      assert value[..i + 1] == value[..i] + [value[i]];
      EscapedAppend(value[..i], value[i]);
      escaped := escaped + Escaped(value[i]);
    }
    assert value[..|value|] == value;
    escaped := escaped + "\"";
  }

  lemma Nothing()
    ensures EscapedAll("") == ""
  {
  }

  // ------------------------------------------------------------------- reading

  /** The single-character escapes of section 5.7; the hexadecimal ones are not needed to read what is written here. */
  function Unescaped(c: char): Option<char> {
    match c
    case '\\' => Some('\\')
    case '\"' => Some('\"')
    case 'n' => Some('\n')
    case 'r' => Some('\r')
    case 't' => Some('\t')
    case '\t' => Some('\t')
    case '0' => Some('\0')
    case 'a' => Some('\U{0007}')
    case 'b' => Some('\U{0008}')
    case 'v' => Some('\U{000B}')
    case 'f' => Some('\U{000C}')
    case 'e' => Some('\U{001B}')
    case ' ' => Some(' ')
    case '/' => Some('/')
    case 'N' => Some('\U{0085}')
    case '_' => Some('\U{00A0}')
    case 'L' => Some('\U{2028}')
    case 'P' => Some('\U{2029}')
    case _ => None
  }

  /** Whether a character may stand in a quoted scalar: the production nb-json of section 5.1. */
  predicate IsQuotable(c: char) {
    c == '\t' || c >= ' '
  }

  /** The rest of a double-quoted scalar on one line, after its opening quote: its value and what follows it. */
  function ReadScalar(text: string): Option<(string, string)> {
    if text == "" then None
    else if text[0] == '\"' then Some(("", text[1..]))
    else if text[0] == '\\' then
      if |text| < 2 || Unescaped(text[1]).None? then None
      else
        var others := ReadScalar(text[2..]);
        if others.None? then None else Some(([Unescaped(text[1]).value] + others.value.0, others.value.1))
    else if !IsQuotable(text[0]) then None
    else
      var others := ReadScalar(text[1..]);
      if others.None? then None else Some(([text[0]] + others.value.0, others.value.1))
  }

  /** Every character is one YAML can carry raw, or one that is escaped. */
  predicate Carried(value: string) {
    forall i :: 0 <= i < |value| ==> IsQuotable(value[i]) || value[i] == '\n' || value[i] == '\r'
  }

  lemma OneReadBack(c: char, rest: string)
    ensures ReadScalar(Escaped(c) + rest)
         == if !(IsQuotable(c) || c == '\n' || c == '\r') || ReadScalar(rest).None? then None
            else Some(([c] + ReadScalar(rest).value.0, ReadScalar(rest).value.1))
  {
    var text := Escaped(c) + rest;
    assert text[|Escaped(c)|..] == rest;
  }

  /**
   Whatever text stands between the quotes is read back as it was, with nothing spilling past them,
   exactly when it has no control character other than tab, line feed and carriage return. Those
   others are written raw, where YAML does not allow them.
   */
  lemma {:induction false} QuoteReadBack(value: string, rest: string)
    ensures ReadScalar(EscapedAll(value) + "\"" + rest) == if Carried(value) then Some((value, rest)) else None
  {
    hide Escaped;
    var text := EscapedAll(value) + "\"" + rest;
    if value == "" {
      assert text == "\"" + rest;
    } else {
      var others := EscapedAll(value[1..]) + "\"" + rest;
      assert text == Escaped(value[0]) + others;
      OneReadBack(value[0], others);
      QuoteReadBack(value[1..], rest);
      CarriedSplit(value);
    }
  }

  lemma CarriedSplit(value: string)
    requires value != ""
    ensures Carried(value) <==> (IsQuotable(value[0]) || value[0] == '\n' || value[0] == '\r') && Carried(value[1..])
    ensures value == [value[0]] + value[1..]
  {
    assert value == [value[0]] + value[1..];
  }

  /** The value of a line `key: "scalar"`, which the scalar must fill to its end. */
  function LineValue(line: string, key: string): Option<string> {
    if |line| <= |key| || line[..|key|] != key || line[|key|] != '\"' then None
    else
      var read := ReadScalar(line[|key| + 1..]);
      if read.None? || read.value.1 != "" then None else Some(read.value.0)
  }

  lemma QuotedLine(key: string, value: string)
    ensures LineValue(key + Quoted(value), key) == if Carried(value) then Some(value) else None
  {
    hide EscapedAll, ReadScalar;
    var line := key + Quoted(value);
    assert line[..|key|] == key;
    assert line[|key| + 1..] == EscapedAll(value) + "\"" + "";
    QuoteReadBack(value, "");
  }

  // --------------------------------------------------------------------- lines

  predicate OneLine(text: string) {
    '\n' !in text && '\r' !in text
  }

  lemma {:induction false} QuotedIsOneLine(value: string)
    ensures OneLine(EscapedAll(value))
    ensures OneLine(Quoted(value))
  {
    if value != "" {
      QuotedIsOneLine(value[1..]);
    }
  }

  /** Lines as text: each ends with a line feed. */
  function Unlines(lines: seq<string>): string {
    if lines == [] then "" else lines[0] + "\n" + Unlines(lines[1..])
  }

  /** Text cut at its line feeds; what follows the last one is the last part. */
  function Lines(text: string): seq<string> {
    Split(text, '\n')
  }

  lemma {:induction false} LinesOfUnlines(lines: seq<string>)
    requires forall i :: 0 <= i < |lines| ==> OneLine(lines[i])
    ensures Lines(Unlines(lines)) == lines + [""]
  {
    if lines != [] {
      LinesOfUnlines(lines[1..]);
      SplitAtSep(lines[0], Unlines(lines[1..]), '\n');
    }
  }

  // ---------------------------------------------------------------- the config

  datatype Options = Options(bedrockPort: nat, javaPort: nat, motd: string, keyFile: string)

  const MOTD_KEY := "  primary-motd: "
  const KEY_FILE_KEY := "  floodgate-key-file: "

  /**
   The file line by line, after the three comment lines it always opens with: only the two quoted
   scalars and the ports come from the options.
   */
  function ConfigLines(o: Options): seq<string> {
    ConfigHead(o) + MotdLines(o) + ConfigTail(o)
  }

  function MotdLines(o: Options): seq<string> {
    if o.motd == "" then ["  passthrough-motd: true"] else [MOTD_KEY + Quoted(o.motd), "  passthrough-motd: false"]
  }

  function ConfigHead(o: Options): seq<string> {
    [ "bedrock:",
      "  address: 0.0.0.0",
      "  port: " + Digits(o.bedrockPort),
      "java:",
      "  address: 127.0.0.1",
      "  port: " + Digits(o.javaPort),
      "  auth-type: floodgate",
      "  forward-hostname: false",
      "motd:" ]
  }

  function ConfigTail(o: Options): seq<string> {
    ["advanced:", KEY_FILE_KEY + Quoted(o.keyFile), "  bedrock:", "    validate-bedrock-login: true"]
  }

  /** `render_config`. */
  function RenderConfig(o: Options): string {
    Unlines(ConfigLines(o))
  }

  lemma JoinedOneLine(a: string, b: string)
    requires OneLine(a) && OneLine(b)
    ensures OneLine(a + b)
  {
  }

  lemma PortIsLine(port: nat)
    ensures OneLine("  port: " + Digits(port))
  {
    hide Digits;
    JoinedOneLine("  port: ", Digits(port));
  }

  lemma AddressesAreLines()
    ensures OneLine("  address: 0.0.0.0") && OneLine("  address: 127.0.0.1")
  {
  }

  lemma SettingsAreLines()
    ensures OneLine("  auth-type: floodgate") && OneLine("  forward-hostname: false")
  {
  }

  lemma SectionsAreLines()
    ensures OneLine("bedrock:") && OneLine("java:") && OneLine("motd:")
  {
  }

  lemma HeadIsLines(o: Options)
    ensures forall i :: 0 <= i < |ConfigHead(o)| ==> OneLine(ConfigHead(o)[i])
  {
    hide OneLine;
    AddressesAreLines();
    SettingsAreLines();
    SectionsAreLines();
    PortIsLine(o.bedrockPort);
    PortIsLine(o.javaPort);
  }

  lemma KeysAreLines()
    ensures OneLine(KEY_FILE_KEY) && OneLine(MOTD_KEY)
  {
  }

  lemma EndIsLines()
    ensures OneLine("advanced:") && OneLine("  bedrock:") && OneLine("    validate-bedrock-login: true")
  {
  }

  lemma TailIsLines(o: Options)
    ensures forall i :: 0 <= i < |ConfigTail(o)| ==> OneLine(ConfigTail(o)[i])
  {
    hide Quoted, OneLine;
    KeysAreLines();
    EndIsLines();
    QuotedIsOneLine(o.keyFile);
    JoinedOneLine(KEY_FILE_KEY, Quoted(o.keyFile));
  }

  lemma PassthroughIsLine()
    ensures OneLine("  passthrough-motd: true") && OneLine("  passthrough-motd: false")
  {
  }

  lemma MotdIsLines(o: Options)
    ensures forall i :: 0 <= i < |MotdLines(o)| ==> OneLine(MotdLines(o)[i])
  {
    hide Quoted, OneLine;
    KeysAreLines();
    PassthroughIsLine();
    QuotedIsOneLine(o.motd);
    JoinedOneLine(MOTD_KEY, Quoted(o.motd));
  }

  /** The file falls into exactly the lines it was put together from, whatever the operator's text. */
  lemma RendersLines(o: Options)
    ensures Lines(RenderConfig(o)) == ConfigLines(o) + [""]
  {
    hide OneLine, ConfigHead, ConfigTail, MotdLines, Lines, Unlines;
    HeadIsLines(o);
    MotdIsLines(o);
    TailIsLines(o);
    LinesOfUnlines(ConfigLines(o));
  }

  const MOTD_LINE := 9

  /**
   Two nonempty MOTDs give the same file but for one line, which has the same key and, between its
   quotes, the MOTD.
   */
  lemma MotdOnlySetsItsValue(o: Options, motd: string)
    requires o.motd != "" && motd != ""
    ensures var (a, b) := (Lines(RenderConfig(o)), Lines(RenderConfig(o.(motd := motd))));
            && |a| == |b| == 16
            && (forall i :: 0 <= i < 16 && i != MOTD_LINE ==> a[i] == b[i])
            && b[MOTD_LINE] == MOTD_KEY + Quoted(motd)
            && LineValue(b[MOTD_LINE], MOTD_KEY) == if Carried(motd) then Some(motd) else None
  {
    hide RenderConfig, Lines, Quoted, Carried, LineValue;
    RendersLines(o);
    RendersLines(o.(motd := motd));
    QuotedLine(MOTD_KEY, motd);
  }

  /** The sections up to the MOTD: each port stands under the section it belongs to. */
  ghost predicate PortsStand(lines: seq<string>, o: Options) {
    && |lines| >= 9
    && lines[0] == "bedrock:" && lines[1] == "  address: 0.0.0.0" && lines[2] == "  port: " + Digits(o.bedrockPort)
    && lines[3] == "java:" && lines[4] == "  address: 127.0.0.1" && lines[5] == "  port: " + Digits(o.javaPort)
    && lines[6] == "  auth-type: floodgate" && lines[7] == "  forward-hostname: false" && lines[8] == "motd:"
  }

  /** The operator's MOTD, or the Java server's own if there is none. */
  ghost predicate MotdStands(lines: seq<string>, o: Options) {
    && |lines| >= 11
    && (o.motd == "" ==> lines[9] == "  passthrough-motd: true")
    && (o.motd != "" ==>
          && LineValue(lines[9], "  primary-motd: ") == (if Carried(o.motd) then Some(o.motd) else None)
          && lines[10] == "  passthrough-motd: false")
  }

  ghost predicate KeyFileStands(lines: seq<string>, at: nat, o: Options) {
    && |lines| == at + 5
    && lines[at] == "advanced:"
    && LineValue(lines[at + 1], "  floodgate-key-file: ") == (if Carried(o.keyFile) then Some(o.keyFile) else None)
    && lines[at + 2] == "  bedrock:" && lines[at + 3] == "    validate-bedrock-login: true" && lines[at + 4] == ""
  }

  lemma HeadStands(o: Options, rest: seq<string>)
    requires |rest| > 0
    ensures PortsStand(ConfigHead(o) + rest, o) && |ConfigHead(o)| == 9
  {
    hide Digits;
  }

  lemma TailStands(before: seq<string>, o: Options)
    ensures KeyFileStands(before + ConfigTail(o) + [""], |before|, o)
  {
    hide Quoted, Carried, LineValue;
    var lines, tail := before + ConfigTail(o) + [""], ConfigTail(o);
    assert |tail| == 4 && forall i :: 0 <= i < 4 ==> lines[|before| + i] == tail[i];
    QuotedLine("  floodgate-key-file: ", o.keyFile);
  }

  lemma MotdLineStands(head: seq<string>, o: Options, rest: seq<string>)
    requires |head| == 9 && |rest| > 0
    ensures MotdStands(head + MotdLines(o) + rest, o) && |MotdLines(o)| == if o.motd == "" then 1 else 2
  {
    hide Quoted, Carried, LineValue;
    var lines, motd := head + MotdLines(o) + rest, MotdLines(o);
    assert forall i :: 0 <= i < |motd| ==> lines[9 + i] == motd[i];
    QuotedLine("  primary-motd: ", o.motd);
  }

  /** Every setting stands under its section, with the operator's ports, MOTD and key file as values. */
  lemma SettingsReadBack(o: Options)
    ensures var lines := Lines(RenderConfig(o));
            && PortsStand(lines, o) && MotdStands(lines, o) && KeyFileStands(lines, if o.motd == "" then 10 else 11, o)
            && Integer(lines[2][8..]) == Some(o.bedrockPort) && Integer(lines[5][8..]) == Some(o.javaPort)
  {
    hide RenderConfig, Lines, ConfigHead, ConfigTail, MotdLines, MotdStands, KeyFileStands, Digits, Integer;
    RendersLines(o);
    var head, motd, tail := ConfigHead(o), MotdLines(o), ConfigTail(o);
    assert head + motd + tail + [""] == head + (motd + tail + [""]) == (head + motd) + tail + [""] == head + motd + (tail + [""]);
    HeadStands(o, motd + tail + [""]);
    MotdLineStands(head, o, tail + [""]);
    TailStands(head + motd, o);
    PortReadBack(o.bedrockPort);
    PortReadBack(o.javaPort);
  }

  lemma PortReadBack(port: nat)
    ensures Integer(("  port: " + Digits(port))[8..]) == Some(port)
  {
    hide Digits, Integer;
    IntegerReadBack(port);
    assert ("  port: " + Digits(port))[8..] == Digits(port);
  }

  /** What is written for the five escaped characters is what section 5.7 writes for them; all others stand for themselves. */
  lemma EscapesOfYaml(c: char)
    ensures Escaped('\\') == ['\\', '\\'] && Escaped('\"') == ['\\', '\"']
    ensures Escaped('\n') == ['\\', 'n'] && Escaped('\r') == ['\\', 'r'] && Escaped('\t') == ['\\', 't']
    ensures c != '\\' && c != '\"' && c != '\n' && c != '\r' && c != '\t' ==> Escaped(c) == [c]
  {
  }

  /** What cannot be carried are the control characters below the space, but for tab, line feed and carriage return. */
  lemma CarriedExactly(value: string)
    ensures Carried(value) <==> forall c :: c in value && c < ' ' ==> c == '\t' || c == '\n' || c == '\r'
  {
    forall i | 0 <= i < |value|
      ensures value[i] in value
    {
    }
  }
}
