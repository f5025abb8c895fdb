/**
 * The opaque cursors handed to clients: the list endpoints' optionally signed JSON cursor and the
 * activity feed's `ledger:eventIndex` cursor.
 *
 * The keyed hash and the date conversions are parameters; what a theorem needs of them it states.
 */
module Cursors {
  import opened Options
  import opened Decimal
  import opened Sequences
  import opened Base64Url

  /** A 256-bit authentication tag. */
  type Tag = s: seq<Byte> | |s| == 32 witness seq(32, i => 0)

  /** `mac` is present when a signing secret is configured. */
  datatype Config = Config(mac: Option<string -> Tag>, toIso: int -> string, parseDate: string -> Option<int>)

  datatype Payload = Payload(createdAt: string, id: int)

  // ---------------------------------------------------------------------------------------------
  // Text as bytes
  // ---------------------------------------------------------------------------------------------

  predicate Ascii(s: string) { forall i :: 0 <= i < |s| ==> s[i] as int < 128 }

  function Bytes(s: string): seq<Byte>
    requires Ascii(s)
  {
    if s == "" then [] else [s[0] as int] + Bytes(s[1..])
  }

  /** Bytes past the ASCII range never occur in a printed cursor; they read as the replacement mark. */
  function Text(b: seq<Byte>): string {
    if b == [] then "" else [if b[0] < 128 then b[0] as char else '\U{FFFD}'] + Text(b[1..])
  }

  lemma {:induction false} TextOfBytes(s: string)
    requires Ascii(s)
    ensures Text(Bytes(s)) == s
  {
    if s != "" {
      TextOfBytes(s[1..]);
    }
  }

  /** Last position of `c`, or -1. */
  function LastIndexOf(s: string, c: char): (k: int)
    ensures -1 <= k < |s| && (forall i :: k < i < |s| ==> s[i] != c) && (0 <= k ==> s[k] == c)
  {
    if s == "" then -1
    else if s[|s| - 1] == c then |s| - 1
    else LastIndexOf(s[..|s| - 1], c)
  }

  // ---------------------------------------------------------------------------------------------
  // The list cursor
  // ---------------------------------------------------------------------------------------------

  const OPEN: string := "{\"createdAt\":\""
  const MIDDLE: string := "\",\"id\":"
  const CLOSE: string := "}"

  function PrintPayload(createdAt: string, id: nat): string {
    OPEN + createdAt + MIDDLE + Digits(id) + CLOSE
  }

  function ParseInteger(s: string): Option<int> {
    if Canonical(s) then Some(Value(s))
    else if s != "" && s[0] == '-' && Canonical(s[1..]) then Some(0 - Value(s[1..]))
    else None
  }

  /** Reads the layout `PrintPayload` writes; any other text is not a payload. */
  function ParsePayload(s: string): Option<Payload> {
    if !(OPEN <= s) then None else
    var rest := s[|OPEN|..];
    var k := IndexOf(rest, '"');
    if !(MIDDLE <= rest[k..]) then None else
    var tail := rest[k + |MIDDLE|..];
    if tail == "" || tail[|tail| - 1..] != CLOSE then None else
    match ParseInteger(tail[..|tail| - 1])
    case Some(id) => Some(Payload(rest[..k], id))
    case None => None
  }

  function Sign(cfg: Config, encoded: string): string {
    match cfg.mac
    case Some(mac) => Encode(mac(encoded))
    case None => ""
  }

  function EncodeCursor(cfg: Config, createdAt: int, id: nat): string
    requires Ascii(cfg.toIso(createdAt))
  {
    PrintedIsAscii(cfg.toIso(createdAt), id);
    var encoded := Encode(Bytes(PrintPayload(cfg.toIso(createdAt), id)));
    var tag := Sign(cfg, encoded);
    if tag != "" then encoded + "." + tag else encoded
  }

  lemma PrintedIsAscii(iso: string, id: nat)
    requires Ascii(iso)
    ensures Ascii(PrintPayload(iso, id))
  {
    assert forall i :: 0 <= i < |Digits(id)| ==> IsDigit(Digits(id)[i]);
  }

  /**
   * What UTF-8 decoding and `JSON.parse` make of the payload bytes: the two fields of an object that
   * has them with the right types, or nothing. `ReadLayout` is one that reads the printed layout.
   */
  type Reader = seq<Byte> -> Option<Payload>

  function ReadLayout(b: seq<Byte>): Option<Payload> { ParsePayload(Text(b)) }

  /** `decodeCursor` over any JSON reader. */
  function DecodeWith(cfg: Config, read: Reader, cursor: string): Result<Payload> {
    if cfg.mac.Some? then
      var dot := LastIndexOf(cursor, '.');
      if dot == -1 then Err("missing signature") else
      var encoded, provided := cursor[..dot], cursor[dot + 1..];
      if provided != Sign(cfg, encoded) then Err("signature mismatch") else ReadPayload(cfg, read, encoded)
    else
      ReadPayload(cfg, read, cursor)
  }

  function DecodeCursor(cfg: Config, cursor: string): Result<Payload> { DecodeWith(cfg, ReadLayout, cursor) }

  function ReadPayload(cfg: Config, read: Reader, encoded: string): Result<Payload> {
    match read(Decode(encoded))
    case Some(p) => if p.id < 0 || cfg.parseDate(p.createdAt).None? then Err("invalid shape") else Ok(p)
    case None => Err("invalid shape")
  }

  /** A time prints as text without quotes and parses back to itself. */
  predicate ValidTime(cfg: Config, t: int) {
    Ascii(cfg.toIso(t)) && '"' !in cfg.toIso(t) && cfg.parseDate(cfg.toIso(t)) == Some(t)
  }

  lemma QuoteAfter(iso: string, rest: string)
    requires '"' !in iso && rest != "" && rest[0] == '"'
    ensures IndexOf(iso + rest, '"') == |iso|
  {
    var s := iso + rest;
    assert s[|iso|] == '"';
    assert forall i :: 0 <= i < |iso| ==> s[i] == iso[i];
  }

  lemma PayloadRoundTrip(iso: string, id: nat)
    requires '"' !in iso
    ensures ParsePayload(PrintPayload(iso, id)) == Some(Payload(iso, id))
  {
    hide Digits, IndexOf;
    var s := PrintPayload(iso, id);
    var rest := s[|OPEN|..];
    assert rest == iso + (MIDDLE + (Digits(id) + CLOSE));
    QuoteAfter(iso, MIDDLE + (Digits(id) + CLOSE));
    var k := IndexOf(rest, '"');
    assert rest[k..] == MIDDLE + (Digits(id) + CLOSE);
    var tail := rest[k + |MIDDLE|..];
    assert tail == Digits(id) + CLOSE;
    assert tail[..|tail| - 1] == Digits(id) && tail[|tail| - 1..] == CLOSE;
    assert rest[..k] == iso;
  }

  /**
   * With any JSON reader that reads the printed payload back, decoding what `EncodeCursor` wrote
   * gives the same pair, signed or not.
   */
  lemma RoundTripWith(cfg: Config, read: Reader, t: int, id: nat)
    requires ValidTime(cfg, t) && Ascii(PrintPayload(cfg.toIso(t), id))
    requires read(Bytes(PrintPayload(cfg.toIso(t), id))) == Some(Payload(cfg.toIso(t), id))
    ensures DecodeWith(cfg, read, EncodeCursor(cfg, t, id)) == Ok(Payload(cfg.toIso(t), id))
  {
    var b := Bytes(PrintPayload(cfg.toIso(t), id));
    RoundTrip(b);
    assert ReadPayload(cfg, read, Encode(b)) == Ok(Payload(cfg.toIso(t), id));
    if cfg.mac.Some? {
      TagIsDotFree(cfg, Encode(b));
      LastDot(Encode(b), Sign(cfg, Encode(b)));
    }
  }

  /** Decoding what `EncodeCursor` wrote gives the same pair back, signed or not. */
  lemma CursorRoundTrip(cfg: Config, t: int, id: nat)
    requires ValidTime(cfg, t)
    ensures DecodeCursor(cfg, EncodeCursor(cfg, t, id)) == Ok(Payload(cfg.toIso(t), id))
  {
    hide ParsePayload, PrintPayload, EncodeCursor, DecodeWith, Text, Bytes;
    PrintedIsAscii(cfg.toIso(t), id);
    TextOfBytes(PrintPayload(cfg.toIso(t), id));
    PayloadRoundTrip(cfg.toIso(t), id);
    RoundTripWith(cfg, ReadLayout, t, id);
  }

  /** A tag is 43 characters, none of them a dot. */
  lemma TagIsDotFree(cfg: Config, encoded: string)
    requires cfg.mac.Some?
    ensures Sign(cfg, encoded) != "" && '.' !in Sign(cfg, encoded)
  {
    var m := cfg.mac.value(encoded);
    NoDot(Pack(m));
    assert |Pack(m)| >= 2;
  }

  lemma LastDot(encoded: string, tag: string)
    requires '.' !in tag
    ensures var c := encoded + "." + tag;
            LastIndexOf(c, '.') == |encoded| && c[..|encoded|] == encoded && c[|encoded| + 1..] == tag
  {
    var c := encoded + "." + tag;
    assert c[|encoded|] == '.';
    assert c[|encoded| + 1..] == tag;
    assert forall i :: |encoded| < i < |c| ==> c[i] == tag[i - |encoded| - 1];
  }

  /** The cursor is a payload text, a dot, and the tag of exactly that payload text. */
  predicate Carries(cfg: Config, cursor: string, encoded: string) { cursor == encoded + "." + Sign(cfg, encoded) }

  /** The payload text holds an object with a non-negative id and a time that parses. */
  predicate Readable(cfg: Config, read: Reader, encoded: string) {
    var p := read(Decode(encoded));
    p.Some? && p.value.id >= 0 && cfg.parseDate(p.value.createdAt).Some?
  }

  /**
   * What a signed deployment accepts, whatever JSON it can read: exactly the texts that carry the tag
   * of their own payload and whose payload is readable.
   */
  lemma AcceptedIff(cfg: Config, read: Reader, cursor: string)
    requires cfg.mac.Some?
    ensures DecodeWith(cfg, read, cursor).Ok? <==>
              exists encoded :: Carries(cfg, cursor, encoded) && Readable(cfg, read, encoded)
  {
    hide Sign;
    if DecodeWith(cfg, read, cursor).Ok? {
      SplitAtDot(cfg, read, cursor);
      var encoded := cursor[..LastIndexOf(cursor, '.')];
      assert Carries(cfg, cursor, encoded) && Readable(cfg, read, encoded);
    }
    if encoded :| Carries(cfg, cursor, encoded) && Readable(cfg, read, encoded) {
      TagIsDotFree(cfg, encoded);
      LastDot(encoded, Sign(cfg, encoded));
    }
  }

  /** Without a signing secret exactly the readable texts are accepted, and the answer is what was read. */
  lemma UnsignedAcceptedIff(cfg: Config, read: Reader, cursor: string)
    requires cfg.mac.None?
    ensures DecodeWith(cfg, read, cursor).Ok? <==> Readable(cfg, read, cursor)
    ensures Readable(cfg, read, cursor) ==> DecodeWith(cfg, read, cursor) == Ok(read(Decode(cursor)).value)
  {
  }

  /** The payload as the client could read it. */
  lemma PayloadText(createdAt: string, id: nat)
    ensures PrintPayload(createdAt, id) == "{\"createdAt\":\"" + createdAt + "\",\"id\":" + Digits(id) + "}"
  {
  }

  /** Any accepted signed cursor carries the tag of the payload it is read as, and an id of at least zero. */
  lemma AcceptedCarriesItsTag(cfg: Config, read: Reader, cursor: string)
    requires cfg.mac.Some? && DecodeWith(cfg, read, cursor).Ok?
    ensures exists encoded :: && Carries(cfg, cursor, encoded)
                              && DecodeWith(cfg, read, cursor) == ReadPayload(cfg, read, encoded)
    ensures DecodeWith(cfg, read, cursor).value.id >= 0
  {
    SplitAtDot(cfg, read, cursor);
    var encoded := cursor[..LastIndexOf(cursor, '.')];
    assert Carries(cfg, cursor, encoded) && DecodeWith(cfg, read, cursor) == ReadPayload(cfg, read, encoded);
  }

  /** Two accepted signed cursors with the same payload text are the same cursor. */
  lemma AcceptedIsDetermined(cfg: Config, read: Reader, c1: string, c2: string)
    requires cfg.mac.Some? && DecodeWith(cfg, read, c1).Ok? && DecodeWith(cfg, read, c2).Ok?
    requires c1[..LastIndexOf(c1, '.')] == c2[..LastIndexOf(c2, '.')]
    ensures c1 == c2
  {
    hide Sign, LastIndexOf, ReadPayload;
    SplitAtDot(cfg, read, c1);
    SplitAtDot(cfg, read, c2);
  }

  lemma SplitAtDot(cfg: Config, read: Reader, c: string)
    requires cfg.mac.Some? && DecodeWith(cfg, read, c).Ok?
    ensures LastIndexOf(c, '.') >= 0
    ensures Carries(cfg, c, c[..LastIndexOf(c, '.')])
  {
    hide ReadPayload, Sign;
    var dot := LastIndexOf(c, '.');
    assert c == c[..dot] + "." + c[dot + 1..];
  }

  // ---------------------------------------------------------------------------------------------
  // The activity feed cursor
  // ---------------------------------------------------------------------------------------------

  function EncodeActivityCursor(ledger: nat, eventIndex: nat): string {
    ActivityTextIsAscii(ledger, eventIndex);
    Encode(Bytes(Digits(ledger) + ":" + Digits(eventIndex)))
  }

  lemma ActivityTextIsAscii(ledger: nat, eventIndex: nat)
    ensures Ascii(Digits(ledger) + ":" + Digits(eventIndex))
  {
    assert forall i :: 0 <= i < |Digits(ledger)| ==> IsDigit(Digits(ledger)[i]);
    assert forall i :: 0 <= i < |Digits(eventIndex)| ==> IsDigit(Digits(eventIndex)[i]);
  }

  /** Numeric reading of one part: the empty text is zero, a digit string is its value. */
  function ToNumber(s: string): Option<int> {
    if s == "" then Some(0)
    else if AllDigits(s) then Some(Value(s))
    else if s[0] == '-' && |s| > 1 && AllDigits(s[1..]) then Some(0 - Value(s[1..]))
    else None
  }

  /** The first two colon-separated parts, both integers. */
  function DecodeActivityCursor(cursor: string): Result<(int, int)> {
    var text := Text(Decode(cursor));
    var k := IndexOf(text, ':');
    if k == |text| then Err("Invalid cursor") else
    var rest := text[k + 1..];
    match (ToNumber(text[..k]), ToNumber(rest[..IndexOf(rest, ':')]))
    case (Some(ledger), Some(eventIndex)) => Ok((ledger, eventIndex))
    case _ => Err("Invalid cursor")
  }

  lemma ActivityCursorRoundTrip(ledger: nat, eventIndex: nat)
    ensures DecodeActivityCursor(EncodeActivityCursor(ledger, eventIndex)) == Ok((ledger, eventIndex))
  {
    hide Digits, Encode, Decode, Text, Bytes, IndexOf, Value;
    var a, b := Digits(ledger), Digits(eventIndex);
    ActivityTextIsAscii(ledger, eventIndex);
    RoundTrip(Bytes(a + ":" + b));
    TextOfBytes(a + ":" + b);
    ColonParts(a, b);
  }

  lemma ColonParts(a: string, b: string)
    requires AllDigits(a) && AllDigits(b)
    ensures var text := a + ":" + b;
            IndexOf(text, ':') == |a| && text[..|a|] == a && text[|a| + 1..] == b && IndexOf(b, ':') == |b|
              && b[..|b|] == b
  {
    var text := a + ":" + b;
    assert text[|a|] == ':';
    assert forall i :: 0 <= i < |a| ==> text[i] == a[i] && IsDigit(a[i]);
    assert forall i :: 0 <= i < |b| ==> IsDigit(b[i]);
  }

  /** Any text of two digit strings around a colon is read as ledger and event index, in that order. */
  lemma ActivityReads(cursor: string, ledger: string, eventIndex: string)
    requires AllDigits(ledger) && AllDigits(eventIndex) && Text(Decode(cursor)) == ledger + ":" + eventIndex
    ensures DecodeActivityCursor(cursor) == Ok((Value(ledger), Value(eventIndex)))
  {
    hide Decode, Text, IndexOf, Value;
    EmptyIsZero();
    ColonParts(ledger, eventIndex);
  }

  lemma EmptyIsZero()
    ensures Value("") == 0
  {
  }
}
