/**
 The Floodgate identity envelope of foton-bedrock/src/floodgate.rs: found in a handshake hostname,
 opened with the shared key, and read as twelve fields. Text is its UTF-8 bytes; AES-GCM is a pair
 of functions of which nothing is assumed but that opening undoes sealing.
 */
module Floodgate {
  import opened Base64
  import opened Bytes
  import opened Decimals
  import opened Segments
  import opened Wrappers

  type Text = seq<byte>

  const NUL: byte := 0
  const SPLITTER: byte := 33
  const VERSION_BYTE: byte := 0x3E
  const IDENTIFIER: Text := [94, 70, 108, 111, 111, 100, 103, 97, 116, 101, 94]
  const HEADER_LENGTH := 12
  const IV_LENGTH := 12
  const EXPECTED_FIELDS := 12

  datatype FloodgateError =
    | NotFloodgateData
    | NoSplitter
    | IvNotBase64
    | IvWrongLength
    | CiphertextNotBase64
    | PlaintextTooLarge
    | DecryptFailed
    | PlaintextNotUtf8
    | WrongFieldCount(count: nat)
    | BadField(name: string)

  predicate NulFree(text: Text) {
    NUL !in text
  }

  // ------------------------------------------------------------- the hostname

  predicate Marked(segment: Text) {
    IDENTIFIER <= segment
  }

  /** The first marked segment of a hostname and the hostname without it. */
  ghost predicate Extracts(hostname: Text, found: Option<(Text, Text)>) {
    var segments := Split(hostname, NUL);
    if found.None? then forall i :: 0 <= i < |segments| ==> !Marked(segments[i])
    else exists i: nat :: FirstMarked(segments, i) && found.value == (segments[i], Join(segments[..i] + segments[i + 1..], NUL))
  }

  ghost predicate FirstMarked(segments: seq<Text>, i: nat) {
    i < |segments| && Marked(segments[i]) && forall j :: 0 <= j < i ==> !Marked(segments[j])
  }

  /** What the loop has after the first `i` segments. */
  ghost predicate Gathered(segments: seq<Text>, i: nat, payload: Option<Text>, rest: seq<Text>, at: nat) {
    && i <= |segments|
    && if payload.None? then rest == segments[..i] && forall j :: 0 <= j < i ==> !Marked(segments[j])
       else at < i && FirstMarked(segments, at) && payload.value == segments[at] && rest == segments[..at] + segments[at + 1..i]
  }

  lemma GatherMore(segments: seq<Text>, i: nat, payload: Option<Text>, rest: seq<Text>, at: nat)
    requires Gathered(segments, i, payload, rest, at) && i < |segments|
    ensures payload.None? && Marked(segments[i]) ==> Gathered(segments, i + 1, Some(segments[i]), rest, i)
    ensures payload.Some? || !Marked(segments[i]) ==> Gathered(segments, i + 1, payload, rest + [segments[i]], at)
  {
    hide Marked;
    if payload.None? {
      assert segments[..i + 1] == segments[..i] + [segments[i]];
      assert segments[i + 1..i + 1] == [];
      assert segments[..i] + [] == segments[..i];
    } else {
      assert segments[at + 1..i + 1] == segments[at + 1..i] + [segments[i]];
    }
  }

  lemma GatheredAll(hostname: Text, payload: Option<Text>, rest: seq<Text>, at: nat)
    requires Gathered(Split(hostname, NUL), |Split(hostname, NUL)|, payload, rest, at)
    ensures Extracts(hostname, if payload.None? then None else Some((payload.value, Join(rest, NUL))))
  {
    hide Marked, Split, Join;
    var segments := Split(hostname, NUL);
    if payload.Some? {
      assert segments[at + 1..|segments|] == segments[at + 1..];
    }
  }

  /** `extract_payload`. */
  method ExtractPayload(hostname: Text) returns (found: Option<(Text, Text)>)
    ensures Extracts(hostname, found)
  {
    hide Marked, Split, Join, Gathered, Extracts;
    var segments := Split(hostname, NUL);
    var payload: Option<Text> := None;
    var rest: seq<Text> := [];
    ghost var at: nat := 0;
    NothingGathered(segments);
    for i := 0 to |segments|
      invariant Gathered(segments, i, payload, rest, at)
    {
      GatherMore(segments, i, payload, rest, at);
      if payload.None? && Marked(segments[i]) {
        payload := Some(segments[i]);
        at := i;
      } else {
        rest := rest + [segments[i]];
      }
    }
    GatheredAll(hostname, payload, rest, at);
    found := if payload.None? then None else Some((payload.value, Join(rest, NUL)));
  }

  lemma NothingGathered(segments: seq<Text>)
    ensures Gathered(segments, 0, None, [], 0)
  {
  }

  /** The answer is determined: there is one first marked segment. */
  lemma ExtractsOne(hostname: Text, a: Option<(Text, Text)>, b: Option<(Text, Text)>)
    requires Extracts(hostname, a) && Extracts(hostname, b)
    ensures a == b
  {
    hide Split, Join, Marked;
    var segments := Split(hostname, NUL);
    if a.Some? {
      var i: nat :| FirstMarked(segments, i) && a.value == (segments[i], Join(segments[..i] + segments[i + 1..], NUL));
      assert Marked(segments[i]);
      if b.Some? {
        var j: nat :| FirstMarked(segments, j) && b.value == (segments[j], Join(segments[..j] + segments[j + 1..], NUL));
        assert i == j;
      }
    }
  }

  // ------------------------------------------------------------- the envelope

  datatype Cipher = Cipher(
    seal: (Text, Text, Text) -> Option<Text>,
    open: (Text, Text, Text) -> Option<Text>)

  /** Opening with the same key and nonce undoes sealing. */
  ghost predicate Inverts(cipher: Cipher) {
    forall key, iv, plain :: cipher.seal(key, iv, plain).Some? ==>
      cipher.open(key, iv, cipher.seal(key, iv, plain).value) == Some(plain)
  }

  function Envelope(version: byte, iv: Text, ciphertext: Text): Text {
    IDENTIFIER + [version] + Encode(iv) + [SPLITTER] + Encode(ciphertext)
  }

  /** `encrypt`. */
  method Encrypt(plaintext: Text, key: Text, iv: Text, cipher: Cipher) returns (r: Result<Text, FloodgateError>)
    requires |key| == 16 && |iv| == IV_LENGTH
    ensures var sealed := cipher.seal(key, iv, plaintext);
            r == if sealed.None? then Err(PlaintextTooLarge) else Ok(Envelope(VERSION_BYTE, iv, sealed.value))
  {
    var ciphertext := cipher.seal(key, iv, plaintext);
    if ciphertext.None? {
      return Err(PlaintextTooLarge);
    }
    var out := IDENTIFIER;
    out := out + [VERSION_BYTE];
    out := out + Encode(iv);
    out := out + [SPLITTER];
    out := out + Encode(ciphertext.value);
    r := Ok(out);
  }

  /** The first place of a byte. */
  function Position(text: Text, c: byte): (at: Option<nat>)
    ensures at.None? ==> c !in text
    ensures at.Some? ==> at.value < |text| && text[at.value] == c && c !in text[..at.value]
  {
    if text == [] then None
    else if text[0] == c then Some(0)
    else
      var later := Position(text[1..], c);
      if later.None? then None
      else
        assert text[..later.value + 1] == [text[0]] + text[1..][..later.value];
        Some(later.value + 1)
  }

  /** `decrypt`, with UTF-8 validity as a given test. */
  function Decrypt(payload: Text, key: Text, cipher: Cipher, isUtf8: Text -> bool): Result<Text, FloodgateError> {
    if |payload| <= HEADER_LENGTH || !Marked(payload) then Err(NotFloodgateData)
    else
      var body := payload[HEADER_LENGTH..];
      var split := Position(body, SPLITTER);
      if split.None? then Err(NoSplitter)
      else
        var iv := Decode(body[..split.value]);
        if iv.None? then Err(IvNotBase64)
        else if |iv.value| != IV_LENGTH then Err(IvWrongLength)
        else
          var ciphertext := Decode(body[split.value + 1..]);
          if ciphertext.None? then Err(CiphertextNotBase64)
          else
            var plaintext := cipher.open(key, iv.value, ciphertext.value);
            if plaintext.None? then Err(DecryptFailed)
            else if !isUtf8(plaintext.value) then Err(PlaintextNotUtf8)
            else Ok(plaintext.value)
  }

  lemma EnvelopeShape(version: byte, iv: Text, ciphertext: Text)
    ensures var payload := Envelope(version, iv, ciphertext);
            && |payload| > HEADER_LENGTH && Marked(payload)
            && payload[HEADER_LENGTH..] == Encode(iv) + [SPLITTER] + Encode(ciphertext)
  {
    hide Encode;
    var payload := Envelope(version, iv, ciphertext);
    assert payload == IDENTIFIER + ([version] + Encode(iv) + [SPLITTER] + Encode(ciphertext));
    assert payload == (IDENTIFIER + [version]) + (Encode(iv) + [SPLITTER] + Encode(ciphertext));
  }

  /** Base64 never contains the splitter, so the scan finds the one between the two texts. */
  lemma SplitterFound(iv: Text, ciphertext: Text)
    ensures var body := Encode(iv) + [SPLITTER] + Encode(ciphertext);
            && Position(body, SPLITTER) == Some(|Encode(iv)|)
            && body[..|Encode(iv)|] == Encode(iv) && body[|Encode(iv)| + 1..] == Encode(ciphertext)
  {
    hide Encode, Position;
    var text := Encode(iv);
    var body := text + [SPLITTER] + Encode(ciphertext);
    NotInText(iv, SPLITTER);
    assert body[..|text|] == text;
    FirstPosition(body, SPLITTER, |text|);
  }

  lemma NotInText(d: Text, c: byte)
    requires !InAlphabet(c)
    ensures c !in Encode(d)
  {
    OnlyAlphabet(d);
  }

  lemma {:induction false} FirstPosition(text: Text, c: byte, at: nat)
    requires at < |text| && text[at] == c && c !in text[..at]
    ensures Position(text, c) == Some(at)
  {
    if at > 0 {
      assert text[..at] == [text[0]] + text[1..][..at - 1];
      FirstPosition(text[1..], c, at - 1);
    }
  }

  lemma EnvelopeOpens(version: byte, iv: Text, ciphertext: Text, key: Text, cipher: Cipher, isUtf8: Text -> bool)
    requires |iv| == IV_LENGTH
    ensures var plain := cipher.open(key, iv, ciphertext);
            Decrypt(Envelope(version, iv, ciphertext), key, cipher, isUtf8)
            == if plain.None? then Err(DecryptFailed) else if !isUtf8(plain.value) then Err(PlaintextNotUtf8) else Ok(plain.value)
  {
    hide Encode, Decode, Position, Marked, Envelope;
    EnvelopeShape(version, iv, ciphertext);
    SplitterFound(iv, ciphertext);
    DecodeOfEncode(iv);
    DecodeOfEncode(ciphertext);
  }

  lemma OnlyEnvelopesOpen(payload: Text, key: Text, cipher: Cipher, isUtf8: Text -> bool) returns (version: byte, iv: Text, ciphertext: Text)
    requires Decrypt(payload, key, cipher, isUtf8).Ok?
    ensures payload == Envelope(version, iv, ciphertext) && |iv| == IV_LENGTH
    ensures cipher.open(key, iv, ciphertext) == Some(Decrypt(payload, key, cipher, isUtf8).value)
  {
    hide Encode, Decode, Position, Envelope;
    var body := payload[HEADER_LENGTH..];
    var split := Position(body, SPLITTER).value;
    version, iv, ciphertext := payload[11], Decode(body[..split]).value, Decode(body[split + 1..]).value;
    EncodeOfDecode(body[..split]);
    EncodeOfDecode(body[split + 1..]);
    Reassembled(payload, split, iv, ciphertext);
  }

  lemma Reassembled(payload: Text, split: nat, iv: Text, ciphertext: Text)
    requires |payload| > HEADER_LENGTH && Marked(payload) && HEADER_LENGTH + split < |payload|
    requires payload[HEADER_LENGTH..][..split] == Encode(iv) && payload[HEADER_LENGTH..][split] == SPLITTER
    requires payload[HEADER_LENGTH..][split + 1..] == Encode(ciphertext)
    ensures payload == Envelope(payload[11], iv, ciphertext)
  {
    hide Encode;
    assert payload[..11] == IDENTIFIER;
    AroundSplitter(payload[HEADER_LENGTH..], split);
    AroundVersion(payload, 11, payload[HEADER_LENGTH..]);
    Associate(IDENTIFIER + [payload[11]], Encode(iv), [SPLITTER], Encode(ciphertext));
  }

  lemma AroundSplitter(body: Text, split: nat)
    requires split < |body|
    ensures body == body[..split] + [body[split]] + body[split + 1..]
  {
  }

  lemma AroundVersion(payload: Text, at: nat, body: Text)
    requires at < |payload| && body == payload[at + 1..]
    ensures payload == payload[..at] + [payload[at]] + body
  {
  }

  lemma Associate(a: Text, b: Text, c: Text, d: Text)
    ensures a + b + c + d == a + (b + c + d)
  {
  }

  /** What `decrypt` accepts: exactly the well-formed envelopes, of any version, whose ciphertext opens to text. */
  ghost predicate IsEnvelopeOf(payload: Text, plaintext: Text, key: Text, cipher: Cipher) {
    exists version, iv, ciphertext :: OpensTo(payload, version, iv, ciphertext, plaintext, key, cipher)
  }

  ghost predicate OpensTo(payload: Text, version: byte, iv: Text, ciphertext: Text, plaintext: Text, key: Text, cipher: Cipher) {
    payload == Envelope(version, iv, ciphertext) && |iv| == IV_LENGTH && cipher.open(key, iv, ciphertext) == Some(plaintext)
  }

  lemma DecryptsExactly(payload: Text, plaintext: Text, key: Text, cipher: Cipher, isUtf8: Text -> bool)
    ensures Decrypt(payload, key, cipher, isUtf8) == Ok(plaintext)
       <==> isUtf8(plaintext) && IsEnvelopeOf(payload, plaintext, key, cipher)
  {
    hide Decrypt, Envelope;
    if Decrypt(payload, key, cipher, isUtf8) == Ok(plaintext) {
      var version, iv, ciphertext := OnlyEnvelopesOpen(payload, key, cipher, isUtf8);
      assert OpensTo(payload, version, iv, ciphertext, plaintext, key, cipher);
      EnvelopeOpens(version, iv, ciphertext, key, cipher, isUtf8);
    }
    if isUtf8(plaintext) && IsEnvelopeOf(payload, plaintext, key, cipher) {
      var version, iv, ciphertext :| OpensTo(payload, version, iv, ciphertext, plaintext, key, cipher);
      EnvelopeOpens(version, iv, ciphertext, key, cipher, isUtf8);
    }
  }

  // ------------------------------------------------------------------- numbers

  /** ASCII text as its bytes, and bytes as the characters of the same code. */
  function AsciiBytes(text: string): Text
    requires forall i :: 0 <= i < |text| ==> text[i] < 128 as char
  {
    seq(|text|, i requires 0 <= i < |text| => text[i] as int)
  }

  function Characters(text: Text): string {
    seq(|text|, i requires 0 <= i < |text| => text[i] as char)
  }

  /** `str::parse::<i32>`: an optional sign, at least one digit, and no overflow. */
  function ParseI32(text: Text): Option<s32> {
    var n := Integer(Characters(text));
    if n.Some? && -0x8000_0000 <= n.value < 0x8000_0000 then Some(n.value) else None
  }

  /** Java's decimal notation. */
  function DecimalText(n: int): Text {
    DecimalIsAscii(n);
    AsciiBytes(Decimal(n))
  }

  lemma DecimalIsAscii(n: int)
    ensures forall i :: 0 <= i < |Decimal(n)| ==> '\0' < Decimal(n)[i] < 128 as char
  {
    hide Digits;
  }

  lemma NumberReadBack(n: s32)
    ensures ParseI32(DecimalText(n)) == Some(n)
    ensures NulFree(DecimalText(n))
  {
    hide Decimal, Integer;
    DecimalIsAscii(n);
    IntegerReadBack(n);
    assert Characters(DecimalText(n)) == Decimal(n);
  }

  // ------------------------------------------------------------- the twelve fields

  datatype BedrockData = BedrockData(
    version: Text,
    username: Text,
    xuid: Text,
    deviceOs: s32,
    languageCode: Text,
    uiProfile: s32,
    inputMode: s32,
    ip: Text,
    linkedPlayer: Text,
    fromProxy: bool,
    subscribeId: s32,
    verifyCode: Text)

  /** `BedrockData::parse`. */
  function Parse(plaintext: Text): Result<BedrockData, FloodgateError> {
    var fields := Split(plaintext, NUL);
    if |fields| != EXPECTED_FIELDS then Err(WrongFieldCount(|fields|))
    else if ParseI32(fields[3]).None? then Err(BadField("deviceOs"))
    else if ParseI32(fields[5]).None? then Err(BadField("uiProfile"))
    else if ParseI32(fields[6]).None? then Err(BadField("inputMode"))
    else if ParseI32(fields[10]).None? then Err(BadField("subscribeId"))
    else
      Ok(BedrockData(
           fields[0], fields[1], fields[2], ParseI32(fields[3]).value, fields[4], ParseI32(fields[5]).value,
           ParseI32(fields[6]).value, fields[7], fields[8], fields[9] == [49], ParseI32(fields[10]).value, fields[11]))
  }

  /** The fields as Geyser writes them: numbers in decimal, the flag as a digit. */
  function Fields(d: BedrockData): (fields: seq<Text>)
    ensures |fields| == EXPECTED_FIELDS
  {
    [d.version, d.username, d.xuid, DecimalText(d.deviceOs), d.languageCode, DecimalText(d.uiProfile), DecimalText(d.inputMode),
     d.ip, d.linkedPlayer, [if d.fromProxy then 49 else 48], DecimalText(d.subscribeId), d.verifyCode]
  }

  /** No text field holds the separator. */
  predicate Separable(d: BedrockData) {
    && NulFree(d.version) && NulFree(d.username) && NulFree(d.xuid) && NulFree(d.languageCode)
    && NulFree(d.ip) && NulFree(d.linkedPlayer) && NulFree(d.verifyCode)
  }

  lemma FieldsNulFree(d: BedrockData)
    requires Separable(d)
    ensures forall i :: 0 <= i < EXPECTED_FIELDS ==> NulFree(Fields(d)[i])
  {
    hide DecimalText, NulFree;
    NumberReadBack(d.deviceOs);
    NumberReadBack(d.uiProfile);
    NumberReadBack(d.inputMode);
    NumberReadBack(d.subscribeId);
    FlagNulFree(d.fromProxy);
  }

  lemma FlagNulFree(flag: bool)
    ensures NulFree([if flag then 49 else 48])
  {
  }

  lemma ParsesFields(d: BedrockData)
    requires Separable(d)
    ensures Parse(Join(Fields(d), NUL)) == Ok(d)
  {
    hide DecimalText, ParseI32, Split, Join, Separable;
    FieldsNulFree(d);
    SplitOfJoin(Fields(d), NUL);
    NumberReadBack(d.deviceOs);
    NumberReadBack(d.uiProfile);
    NumberReadBack(d.inputMode);
    NumberReadBack(d.subscribeId);
  }

  // ------------------------------------------------------------------ end to end

  lemma EnvelopeNulFree(version: byte, iv: Text, ciphertext: Text)
    requires version != NUL
    ensures NulFree(Envelope(version, iv, ciphertext))
  {
    hide Encode;
    NotInText(iv, NUL);
    NotInText(ciphertext, NUL);
  }

  /** A hostname with a segment put in at one of its boundaries. */
  function WithSegment(hostname: Text, at: nat, segment: Text): Text
    requires at <= |Split(hostname, NUL)|
  {
    Join(Split(hostname, NUL)[..at] + [segment] + Split(hostname, NUL)[at..], NUL)
  }

  /** Whatever the boundary, the segment is found and the hostname is left as it was. */
  lemma SegmentRecovered(hostname: Text, at: nat, segment: Text)
    requires at <= |Split(hostname, NUL)| && NulFree(segment) && Marked(segment)
    requires forall i :: 0 <= i < at ==> !Marked(Split(hostname, NUL)[i])
    ensures Extracts(WithSegment(hostname, at, segment), Some((segment, hostname)))
  {
    hide Split, Join, Marked;
    var segments := Split(hostname, NUL);
    var all := segments[..at] + [segment] + segments[at..];
    JoinOfSplit(hostname, NUL);
    SplitOfJoin(all, NUL);
    assert all[..at] + all[at + 1..] == segments;
    assert FirstMarked(all, at);
  }

  /** A hostname without a Floodgate segment is an ordinary Java client's. */
  lemma OrdinaryHostname(hostname: Text)
    requires forall i :: 0 <= i < |Split(hostname, NUL)| ==> !Marked(Split(hostname, NUL)[i])
    ensures Extracts(hostname, None)
    ensures forall found :: Extracts(hostname, found) ==> found == None
  {
    hide Extracts;
    assert Extracts(hostname, None) by {
      NothingToExtract(hostname);
    }
    forall found | Extracts(hostname, found) ensures found == None {
      ExtractsOne(hostname, found, None);
    }
  }

  lemma NothingToExtract(hostname: Text)
    requires forall i :: 0 <= i < |Split(hostname, NUL)| ==> !Marked(Split(hostname, NUL)[i])
    ensures Extracts(hostname, None)
  {
  }

  /**
   The identity Geyser sealed is the identity the server reads, and the hostname it was put into
   comes back as it was, at any segment boundary with no earlier Floodgate segment.
   */
  lemma IdentityRoundTrip(d: BedrockData, hostname: Text, at: nat, key: Text, iv: Text, cipher: Cipher, isUtf8: Text -> bool,
                          found: Option<(Text, Text)>)
    requires Separable(d) && |iv| == IV_LENGTH && Inverts(cipher) && isUtf8(Join(Fields(d), NUL))
    requires at <= |Split(hostname, NUL)| && forall i :: 0 <= i < at ==> !Marked(Split(hostname, NUL)[i])
    requires cipher.seal(key, iv, Join(Fields(d), NUL)).Some?
    requires Extracts(WithSegment(hostname, at, Envelope(VERSION_BYTE, iv, cipher.seal(key, iv, Join(Fields(d), NUL)).value)), found)
    ensures found.Some? && found.value.1 == hostname
    ensures Decrypt(found.value.0, key, cipher, isUtf8) == Ok(Join(Fields(d), NUL))
    ensures Parse(Decrypt(found.value.0, key, cipher, isUtf8).value) == Ok(d)
  {
    hide Split, Join, Marked, NulFree, Decrypt, Parse, Envelope, Fields, Separable, WithSegment, Extracts;
    var ciphertext := cipher.seal(key, iv, Join(Fields(d), NUL)).value;
    var payload := Envelope(VERSION_BYTE, iv, ciphertext);
    EnvelopeNulFree(VERSION_BYTE, iv, ciphertext);
    EnvelopeShape(VERSION_BYTE, iv, ciphertext);
    SegmentRecovered(hostname, at, payload);
    ExtractsOne(WithSegment(hostname, at, payload), found, Some((payload, hostname)));
    EnvelopeOpens(VERSION_BYTE, iv, ciphertext, key, cipher, isUtf8);
    ParsesFields(d);
  }

  // --------------------------------------------------------- the layout, byte by byte

  /** The bytes of an envelope: `^Floodgate^`, the version, the IV, an exclamation mark and the ciphertext. */
  lemma EnvelopeLayout(version: byte, iv: Text, ciphertext: Text)
    ensures Envelope(version, iv, ciphertext)
         == [0x5e, 0x46, 0x6c, 0x6f, 0x6f, 0x64, 0x67, 0x61, 0x74, 0x65, 0x5e, version] + Encode(iv) + [0x21] + Encode(ciphertext)
  {
    hide Encode;
    var magic: Text := [0x5e, 0x46, 0x6c, 0x6f, 0x6f, 0x64, 0x67, 0x61, 0x74, 0x65, 0x5e];
    assert IDENTIFIER == magic && magic + [version] == [0x5e, 0x46, 0x6c, 0x6f, 0x6f, 0x64, 0x67, 0x61, 0x74, 0x65, 0x5e, version];
  }

  /** Which field is which, and which count or number is refused. */
  lemma ParsesByPosition(fields: seq<Text>)
    requires |fields| > 0 && forall i :: 0 <= i < |fields| ==> 0 !in fields[i]
    ensures var r := Parse(Join(fields, 0));
            && (|fields| != 12 ==> r == Err(WrongFieldCount(|fields|)))
            && (|fields| == 12 ==>
                  (r.Ok? <==> ParseI32(fields[3]).Some? && ParseI32(fields[5]).Some? && ParseI32(fields[6]).Some? && ParseI32(fields[10]).Some?))
            && (r.Ok? ==>
                  && |fields| == 12
                  && r.value.version == fields[0] && r.value.username == fields[1] && r.value.xuid == fields[2]
                  && ParseI32(fields[3]) == Some(r.value.deviceOs) && r.value.languageCode == fields[4]
                  && ParseI32(fields[5]) == Some(r.value.uiProfile) && ParseI32(fields[6]) == Some(r.value.inputMode)
                  && r.value.ip == fields[7] && r.value.linkedPlayer == fields[8]
                  && (r.value.fromProxy <==> fields[9] == [0x31])
                  && ParseI32(fields[10]) == Some(r.value.subscribeId) && r.value.verifyCode == fields[11])
  {
    hide ParseI32, Split, Join;
    SplitOfJoin(fields, 0);
  }

  /** A segment is Floodgate's exactly when it begins with those eleven bytes. */
  lemma MarkedExactly(segment: Text)
    ensures Marked(segment) <==>
              |segment| >= 11 && segment[..11] == [0x5e, 0x46, 0x6c, 0x6f, 0x6f, 0x64, 0x67, 0x61, 0x74, 0x65, 0x5e]
  {
    assert |IDENTIFIER| == 11;
  }

  /** Which payloads are refused before anything is opened, and as what. */
  lemma RefusedExactly(payload: Text, iv: Text, rest: Text, key: Text, cipher: Cipher, isUtf8: Text -> bool)
    ensures Decrypt(payload, key, cipher, isUtf8) == Err(NotFloodgateData) <==> |payload| <= 12 || !Marked(payload)
    ensures Decrypt(payload, key, cipher, isUtf8) == Err(NoSplitter) <==>
              |payload| > 12 && Marked(payload) && 0x21 !in payload[12..]
    ensures |payload| > 12 && Marked(payload) && payload[12..] == iv + [0x21] + rest && 0x21 !in iv ==>
              var r := Decrypt(payload, key, cipher, isUtf8);
              && (r == Err(IvNotBase64) <==> Decode(iv) == None)
              && (r == Err(IvWrongLength) <==> Decode(iv).Some? && |Decode(iv).value| != 12)
              && (r == Err(CiphertextNotBase64) <==> Decode(iv).Some? && |Decode(iv).value| == 12 && Decode(rest) == None)
  {
    hide Decode, Marked, Position;
    if |payload| > 12 {
      var body := payload[12..];
      if 0x21 in body {
        HasPosition(body, 0x21);
      } else {
        NoPosition(body, 0x21);
      }
      if body == iv + [0x21] + rest && 0x21 !in iv {
        assert body[|iv|] == 0x21 && body[..|iv|] == iv && body[|iv| + 1..] == rest;
        FirstPosition(body, 0x21, |iv|);
      }
    }
  }

  lemma {:induction false} HasPosition(text: Text, c: byte)
    requires c in text
    ensures Position(text, c).Some?
  {
    if text[0] != c {
      assert c in text[1..];
      HasPosition(text[1..], c);
    }
  }

  lemma {:induction false} NoPosition(text: Text, c: byte)
    requires c !in text
    ensures Position(text, c) == None
  {
    if text != [] {
      NoPosition(text[1..], c);
    }
  }
}
